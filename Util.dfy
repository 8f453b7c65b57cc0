/**
 * The address validator of the facades (class `Util`).
 *
 * `IsValidEmail` accepts exactly the strings matched, case-insensitively, by
 *
 *   \A(?:ATOM+(?:\.ATOM+)*@(?:LABEL\.)+LABEL)\Z
 *
 * where ATOM is the class [a-z0-9!#$%&'*+/=?^_`{|}~-] and LABEL is
 * [a-z0-9](?:[a-z0-9-]*[a-z0-9])?. It is written here as a recogniser: find
 * the first '@', split both halves on '.', and check each piece. `InLanguage`
 * is the same language stated as a grammar (pieces joined by dots), and
 * `IsValidEmailIff` proves that the recogniser accepts exactly that grammar,
 * plus the one optional trailing newline that `\Z` admits.
 */
module Util {
  import opened Wrappers
  import opened Text

  // ---------------------------------------------------------------------
  // Character classes (IgnoreCase: each class is tested on the lower-cased character)
  // ---------------------------------------------------------------------

  /** The symbols the atom class admits besides letters and digits. */
  const AtomSymbols: string := "!#$%&'*+/=?^_`{|}~-"

  /** [a-z0-9] under IgnoreCase. */
  predicate IsAlnum(c: char)
  {
    var d := Lower(c);
    'a' <= d <= 'z' || '0' <= d <= '9'
  }

  /** [a-z0-9!#$%&'*+/=?^_`{|}~-] under IgnoreCase. */
  predicate IsAtomChar(c: char)
  {
    IsAlnum(c) || c in AtomSymbols
  }

  /** [a-z0-9-] under IgnoreCase. */
  predicate IsLabelChar(c: char)
  {
    IsAlnum(c) || c == '-'
  }

  /** One or more atom characters. */
  predicate IsAtom(a: string)
  {
    |a| > 0 && forall i :: 0 <= i < |a| ==> IsAtomChar(a[i])
  }

  /** [a-z0-9](?:[a-z0-9-]*[a-z0-9])? : alphanumeric at both ends, hyphens allowed inside. */
  predicate IsLabel(l: string)
  {
    && |l| > 0
    && IsAlnum(l[0])
    && IsAlnum(l[|l| - 1])
    && forall i :: 0 < i < |l| - 1 ==> IsLabelChar(l[i])
  }

  // ---------------------------------------------------------------------
  // Strings as dot-separated pieces
  // ---------------------------------------------------------------------

  /** The pieces of `s` between dots, in order; always at least one (possibly empty) piece. */
  function Split(s: string): (parts: seq<string>)
    ensures |parts| >= 1
  {
    if s == [] then [[]]
    else
      var rest := Split(s[1..]);
      if s[0] == '.' then [[]] + rest
      else [[s[0]] + rest[0]] + rest[1..]
  }

  /** The pieces written one after another with a dot between neighbours. */
  function Join(parts: seq<string>): string
  {
    if |parts| == 0 then []
    else if |parts| == 1 then parts[0]
    else parts[0] + "." + Join(parts[1..])
  }

  /** Index of the first occurrence of `c` in `s`, or `|s|` when there is none. */
  function IndexOf(s: string, c: char): (i: nat)
    ensures i <= |s|
    ensures i < |s| ==> s[i] == c
    ensures forall j :: 0 <= j < i ==> s[j] != c
  {
    if s == [] then 0
    else if s[0] == c then 0
    else 1 + IndexOf(s[1..], c)
  }

  /** Number of occurrences of `c` in `s`. */
  function Count(s: string, c: char): nat
  {
    if s == [] then 0
    else (if s[0] == c then 1 else 0) + Count(s[1..], c)
  }

  // ---------------------------------------------------------------------
  // The recogniser
  // ---------------------------------------------------------------------

  /** ATOM+(?:\.ATOM+)* : every dot-separated piece is a non-empty run of atom characters. */
  predicate LocalPartOk(local: string)
  {
    var atoms := Split(local);
    forall k :: 0 <= k < |atoms| ==> IsAtom(atoms[k])
  }

  /** (?:LABEL\.)+LABEL : two or more dot-separated labels. */
  predicate DomainOk(domain: string)
  {
    var labels := Split(domain);
    |labels| >= 2 && forall k :: 0 <= k < |labels| ==> IsLabel(labels[k])
  }

  /** The anchored body of the pattern: local part, the first '@', domain, and nothing else. */
  predicate MatchesAddress(s: string)
  {
    var at := IndexOf(s, '@');
    at < |s| && LocalPartOk(s[..at]) && DomainOk(s[at + 1..])
  }

  /** The local part of a matched address is never empty. */
  lemma MatchedLocalPartNotEmpty(t: string)
    requires MatchesAddress(t)
    ensures 0 < IndexOf(t, '@') < |t|
  {
    var at := IndexOf(t, '@');
    EmptyLocalPartRejected(t[..at]);
  }

  lemma EmptyLocalPartRejected(local: string)
    ensures local == [] ==> !LocalPartOk(local)
  {
    if local == [] {
      assert Split(local) == [[]];
      assert !IsAtom(Split(local)[0]);
    }
  }

  /** A matched address, bare or before one newline, has an '@' and does not start with it. */
  lemma LocalPartNotEmpty(s: string)
    ensures MatchesAddress(s) ==> '@' in s && s[0] != '@'
    ensures |s| > 0 && MatchesAddress(s[..|s| - 1]) ==> '@' in s && s[0] != '@'
  {
    if MatchesAddress(s) {
      MatchedLocalPartNotEmpty(s);
    }
    if |s| > 0 && MatchesAddress(s[..|s| - 1]) {
      MatchedLocalPartNotEmpty(s[..|s| - 1]);
      var at := IndexOf(s[..|s| - 1], '@');
      assert s[at] == '@';
    }
  }

  /**
   * `Util.IsValidEmail`. `\Z` matches at the very end or just before a final
   * newline, so one trailing '\n' after the address is admitted.
   */
  predicate IsValidEmail(emailAddress: string)
    ensures IsValidEmail(emailAddress) ==> '@' in emailAddress && emailAddress[0] != '@'
  {
    LocalPartNotEmpty(emailAddress);
    || MatchesAddress(emailAddress)
    || (&& |emailAddress| > 0
        && emailAddress[|emailAddress| - 1] == '\n'
        && MatchesAddress(emailAddress[..|emailAddress| - 1]))
  }

  // ---------------------------------------------------------------------
  // The grammar the recogniser is proved against
  // ---------------------------------------------------------------------

  /** One or more atoms for the local part, two or more labels for the domain. */
  predicate WellFormedParts(atoms: seq<string>, labels: seq<string>)
  {
    && |atoms| >= 1
    && |labels| >= 2
    && (forall k :: 0 <= k < |atoms| ==> IsAtom(atoms[k]))
    && (forall k :: 0 <= k < |labels| ==> IsLabel(labels[k]))
  }

  function Assemble(atoms: seq<string>, labels: seq<string>): string
  {
    Join(atoms) + "@" + Join(labels)
  }

  /** The language of the pattern without its anchors: atoms.atoms@label.label(.label)* */
  ghost predicate InLanguage(s: string)
  {
    exists atoms: seq<string>, labels: seq<string> ::
      WellFormedParts(atoms, labels) && s == Assemble(atoms, labels)
  }

  // ---------------------------------------------------------------------
  // Split and Join are inverse
  // ---------------------------------------------------------------------

  lemma JoinCons(p: string, rest: seq<string>)
    requires |rest| >= 1
    ensures Join([p] + rest) == p + "." + Join(rest)
  {
    assert ([p] + rest)[1..] == rest;
  }

  /** Joining the pieces of a split gives the string back. */
  lemma {:induction false} JoinSplit(s: string)
    ensures Join(Split(s)) == s
    decreases |s|
  {
    if s != [] {
      var rest := Split(s[1..]);
      JoinSplit(s[1..]);
      assert Join(rest) == s[1..];
      assert s == [s[0]] + s[1..];
      if s[0] == '.' {
        assert Split(s) == [[]] + rest;
        JoinCons([], rest);
      } else {
        var first := [s[0]] + rest[0];
        assert Split(s) == [first] + rest[1..];
        if |rest| == 1 {
          assert Join(rest) == rest[0];
          assert Split(s) == [first];
        } else {
          assert rest == [rest[0]] + rest[1..];
          JoinCons(first, rest[1..]);
          JoinCons(rest[0], rest[1..]);
        }
      }
    }
  }

  /** A dot-free prefix is glued onto the first piece. */
  lemma {:induction false} SplitPrefix(w: string, t: string)
    requires '.' !in w
    ensures Split(w + t) == [w + Split(t)[0]] + Split(t)[1..]
    decreases |w|
  {
    if w == [] {
      assert w + t == t;
      assert w + Split(t)[0] == Split(t)[0];
      assert Split(t) == [Split(t)[0]] + Split(t)[1..];
    } else {
      assert (w + t)[0] == w[0];
      assert (w + t)[1..] == w[1..] + t;
      SplitPrefix(w[1..], t);
      assert [w[0]] + (w[1..] + Split(t)[0]) == w + Split(t)[0];
    }
  }

  /** Splitting dot-free pieces that were joined gives the pieces back. */
  lemma {:induction false} SplitJoin(parts: seq<string>)
    requires |parts| >= 1
    requires forall k :: 0 <= k < |parts| ==> '.' !in parts[k]
    ensures Split(Join(parts)) == parts
    decreases |parts|
  {
    if |parts| == 1 {
      SplitPrefix(parts[0], []);
      assert parts[0] + [] == parts[0];
    } else {
      var tail := Join(parts[1..]);
      SplitJoin(parts[1..]);
      var dotted := "." + tail;
      assert dotted[0] == '.' && dotted[1..] == tail;
      assert Split(dotted) == [[]] + parts[1..];
      assert Join(parts) == parts[0] + dotted;
      SplitPrefix(parts[0], dotted);
      assert parts[0] + Split(dotted)[0] == parts[0];
      assert Split(dotted)[1..] == parts[1..];
      assert parts == [parts[0]] + parts[1..];
    }
  }

  /** Every piece of a split is dot-free. */
  lemma {:induction false} SplitPiecesDotFree(s: string)
    ensures forall k :: 0 <= k < |Split(s)| ==> '.' !in Split(s)[k]
    decreases |s|
  {
    if s != [] {
      SplitPiecesDotFree(s[1..]);
    }
  }

  /** A character other than the dot that is in no piece is not in their join. */
  lemma {:induction false} JoinAvoids(parts: seq<string>, c: char)
    requires c != '.'
    requires forall k :: 0 <= k < |parts| ==> c !in parts[k]
    ensures c !in Join(parts)
    decreases |parts|
  {
    if |parts| > 1 {
      JoinAvoids(parts[1..], c);
    }
  }

  /** A string without a dot splits into itself alone. */
  lemma SplitDotFree(s: string)
    requires '.' !in s
    ensures Split(s) == [s]
  {
    SplitPrefix(s, []);
    assert s + [] == s;
  }

  lemma AtomAvoidsSeparators(a: string)
    requires IsAtom(a)
    ensures '.' !in a && '@' !in a && '\n' !in a
  {
  }

  lemma LabelAvoidsSeparators(l: string)
    requires IsLabel(l)
    ensures '.' !in l && '@' !in l && '\n' !in l
  {
  }

  // ---------------------------------------------------------------------
  // The recogniser accepts exactly the grammar
  // ---------------------------------------------------------------------

  /** Any address built from well-formed pieces is recognised. */
  lemma AssembledMatches(atoms: seq<string>, labels: seq<string>)
    requires WellFormedParts(atoms, labels)
    ensures MatchesAddress(Assemble(atoms, labels))
  {
    var local, domain := Join(atoms), Join(labels);
    var s := Assemble(atoms, labels);
    forall k | 0 <= k < |atoms| ensures '.' !in atoms[k] && '@' !in atoms[k] {
      AtomAvoidsSeparators(atoms[k]);
    }
    forall k | 0 <= k < |labels| ensures '.' !in labels[k] {
      LabelAvoidsSeparators(labels[k]);
    }
    JoinAvoids(atoms, '@');
    assert s[|local|] == '@';
    assert forall j :: 0 <= j < |local| ==> s[j] == local[j];
    var at := IndexOf(s, '@');
    assert at == |local|;
    assert s[..at] == local;
    assert s[at + 1..] == domain;
    SplitJoin(atoms);
    SplitJoin(labels);
  }

  /** The recogniser and the grammar agree on every string. */
  lemma MatchesAddressIff(s: string)
    ensures MatchesAddress(s) <==> InLanguage(s)
  {
    if MatchesAddress(s) {
      var at := IndexOf(s, '@');
      var atoms, labels := Split(s[..at]), Split(s[at + 1..]);
      JoinSplit(s[..at]);
      JoinSplit(s[at + 1..]);
      assert s == s[..at] + "@" + s[at + 1..];
      assert WellFormedParts(atoms, labels) && s == Assemble(atoms, labels);
    }
    if InLanguage(s) {
      var atoms, labels :| WellFormedParts(atoms, labels) && s == Assemble(atoms, labels);
      AssembledMatches(atoms, labels);
    }
  }

  /** `IsValidEmail` accepts an address of the grammar, optionally followed by one newline, and nothing else. */
  lemma IsValidEmailIff(s: string)
    ensures IsValidEmail(s) <==>
      || InLanguage(s)
      || (|s| > 0 && s[|s| - 1] == '\n' && InLanguage(s[..|s| - 1]))
  {
    MatchesAddressIff(s);
    if |s| > 0 {
      MatchesAddressIff(s[..|s| - 1]);
    }
  }

  // ---------------------------------------------------------------------
  // Consequences for accepted addresses
  // ---------------------------------------------------------------------

  lemma {:induction false} CountAppend(a: string, b: string, c: char)
    ensures Count(a + b, c) == Count(a, c) + Count(b, c)
    decreases |a|
  {
    if a == [] {
      assert a + b == b;
    } else {
      assert (a + b)[1..] == a[1..] + b;
      CountAppend(a[1..], b, c);
    }
  }

  lemma {:induction false} CountAbsent(s: string, c: char)
    requires c !in s
    ensures Count(s, c) == 0
    decreases |s|
  {
    if s != [] {
      CountAbsent(s[1..], c);
    }
  }

  /** Text appended after the first occurrence does not move it. */
  lemma {:induction false} IndexOfExtend(s: string, tail: string, c: char)
    requires IndexOf(s, c) < |s|
    ensures IndexOf(s + tail, c) == IndexOf(s, c)
    decreases |s|
  {
    assert (s + tail)[0] == s[0];
    if s[0] != c {
      assert (s + tail)[1..] == s[1..] + tail;
      IndexOfExtend(s[1..], tail, c);
    }
  }

  /** Two or more pieces mean there is a dot; `j` is the first one. */
  lemma DotIndex(d: string) returns (j: nat)
    requires |Split(d)| >= 2
    ensures j < |d| && d[j] == '.'
  {
    j := IndexOf(d, '.');
    if j == |d| {
      SplitDotFree(d);
    }
  }

  lemma MatchedAddressHasOneAt(s: string)
    requires MatchesAddress(s)
    ensures Count(s, '@') == 1
  {
    var at := IndexOf(s, '@');
    var local, domain := s[..at], s[at + 1..];
    MatchedDomainHasNoAt(domain);
    assert s == local + ("@" + domain);
    CountAppend(local, "@" + domain, '@');
    CountAppend("@", domain, '@');
    CountAbsent(local, '@');
    CountAbsent(domain, '@');
  }

  /** Some dot follows position `at`. */
  predicate DotAfter(s: string, at: nat)
  {
    exists j :: at < j < |s| && s[j] == '.'
  }

  /** A dot of the part after the '@' is a dot of the whole string. */
  lemma DotAfterAt(s: string, at: nat)
    requires at < |s| && |Split(s[at + 1..])| >= 2
    ensures DotAfter(s, at)
  {
    var j := DotIndex(s[at + 1..]);
    assert s[at + 1 + j] == s[at + 1..][j];
  }

  /** A dot stays where it is when text is appended. */
  lemma DotAfterExtend(s: string, tail: string, at: nat)
    requires DotAfter(s, at)
    ensures DotAfter(s + tail, at)
  {
    var j :| at < j < |s| && s[j] == '.';
    assert (s + tail)[j] == '.';
  }

  lemma MatchedDomainDotted(s: string)
    requires MatchesAddress(s)
    ensures IndexOf(s, '@') < |s| && DotAfter(s, IndexOf(s, '@'))
  {
    var at := IndexOf(s, '@');
    assert at < |s| && DomainOk(s[at + 1..]);
    DotAfterAt(s, at);
  }

  /** The body of the pattern holds one '@' and a dot after it. */
  lemma MatchedAddressShape(s: string)
    requires MatchesAddress(s)
    ensures Count(s, '@') == 1
    ensures DotAfter(s, IndexOf(s, '@'))
  {
    MatchedAddressHasOneAt(s);
    MatchedDomainDotted(s);
  }

  lemma MatchedDomainHasNoAt(domain: string)
    requires DomainOk(domain)
    ensures '@' !in domain
  {
    var labels := Split(domain);
    forall k | 0 <= k < |labels| ensures '@' !in labels[k] {
      LabelAvoidsSeparators(labels[k]);
    }
    JoinAvoids(labels, '@');
    JoinSplit(domain);
  }

  lemma LastNewline(s: string)
    requires |s| > 0 && s[|s| - 1] == '\n'
    ensures s == s[..|s| - 1] + "\n"
  {
  }

  lemma NewlineKeepsOneAt(s: string)
    requires |s| > 0 && s[|s| - 1] == '\n' && MatchesAddress(s[..|s| - 1])
    ensures Count(s, '@') == 1
  {
    var core := s[..|s| - 1];
    assert s == core + "\n";
    MatchedAddressHasOneAt(core);
    CountAppend(core, "\n", '@');
    assert Count("\n", '@') == 0;
  }

  lemma NewlineKeepsDottedDomain(core: string)
    requires MatchesAddress(core)
    ensures var s := core + "\n"; IndexOf(s, '@') < |s| && DotAfter(s, IndexOf(s, '@'))
  {
    MatchedDomainDotted(core);
    IndexOfExtend(core, "\n", '@');
    DotAfterExtend(core, "\n", IndexOf(core, '@'));
  }

  lemma NewlineTerminatedShape(s: string)
    requires |s| > 0 && s[|s| - 1] == '\n' && MatchesAddress(s[..|s| - 1])
    ensures Count(s, '@') == 1
    ensures var at := IndexOf(s, '@'); at < |s| && DotAfter(s, at)
  {
    NewlineKeepsOneAt(s);
    LastNewline(s);
    NewlineKeepsDottedDomain(s[..|s| - 1]);
  }

  /** Every accepted string holds exactly one '@', and its domain contains at least one dot. */
  lemma AcceptedAddressShape(s: string)
    requires IsValidEmail(s)
    ensures Count(s, '@') == 1
    ensures var at := IndexOf(s, '@'); at < |s| && DotAfter(s, at)
  {
    if MatchesAddress(s) {
      MatchedAddressShape(s);
    } else {
      NewlineTerminatedShape(s);
    }
  }

  /** The local part, stated character by character: atom characters and dots, no dot first, last or doubled. */
  predicate DotSeparatedAtoms(x: string)
  {
    && |x| > 0 && x[0] != '.' && x[|x| - 1] != '.'
    && (forall i :: 0 <= i < |x| ==> IsAtomChar(x[i]) || x[i] == '.')
    && (forall i :: 0 < i < |x| && x[i] == '.' ==> x[i - 1] != '.')
  }

  /** The domain, stated character by character: each dot sits between two alphanumerics, as do the ends. */
  predicate DotSeparatedLabels(d: string)
  {
    && |d| > 0 && IsAlnum(d[0]) && IsAlnum(d[|d| - 1])
    && (forall i :: 0 <= i < |d| ==> IsLabelChar(d[i]) || d[i] == '.')
    && (forall i :: 0 < i < |d| - 1 && d[i] == '.' ==> IsAlnum(d[i - 1]) && IsAlnum(d[i + 1]))
  }

  lemma AtomsShapeDown(p: string, tail: string)
    requires '.' !in p
    requires DotSeparatedAtoms(p + "." + tail)
    ensures IsAtom(p) && DotSeparatedAtoms(tail)
  {
    var x := p + "." + tail;
    assert x[|p|] == '.';
    assert |p| > 0;
    forall i | 0 <= i < |p| ensures IsAtomChar(p[i]) {
      assert x[i] == p[i];
    }
    assert |tail| > 0;
    assert tail[0] == x[|p| + 1];
    assert tail[|tail| - 1] == x[|x| - 1];
    forall i | 0 <= i < |tail| ensures IsAtomChar(tail[i]) || tail[i] == '.' {
      assert tail[i] == x[|p| + 1 + i];
    }
    forall i | 0 < i < |tail| && tail[i] == '.' ensures tail[i - 1] != '.' {
      assert tail[i] == x[|p| + 1 + i] && tail[i - 1] == x[|p| + i];
    }
  }

  lemma AtomsShapeUp(p: string, tail: string)
    requires IsAtom(p) && DotSeparatedAtoms(tail)
    ensures DotSeparatedAtoms(p + "." + tail)
  {
    var x := p + "." + tail;
    assert x[0] == p[0];
    assert x[|x| - 1] == tail[|tail| - 1];
    forall i | 0 <= i < |x| ensures IsAtomChar(x[i]) || x[i] == '.' {
      if i < |p| {
        assert x[i] == p[i];
      } else if |p| < i {
        assert x[i] == tail[i - |p| - 1];
      }
    }
    forall i | |p| <= i < |x| && x[i] == '.' ensures x[i - 1] != '.' {
      if i == |p| {
        assert x[i - 1] == p[|p| - 1];
      } else {
        assert x[i] == tail[i - |p| - 1];
        assert x[i - 1] == tail[i - |p| - 2];
      }
    }
  }

  /** Dot-free pieces joined by dots form a local part exactly when every piece is an atom. */
  lemma {:induction false} JoinedAtomsShape(parts: seq<string>)
    requires |parts| >= 1
    requires forall k :: 0 <= k < |parts| ==> '.' !in parts[k]
    ensures DotSeparatedAtoms(Join(parts)) <==> forall k :: 0 <= k < |parts| ==> IsAtom(parts[k])
    decreases |parts|
  {
    if |parts| > 1 {
      var p, rest := parts[0], parts[1..];
      assert parts == [p] + rest;
      JoinedAtomsShape(rest);
      JoinCons(p, rest);
      if DotSeparatedAtoms(Join(parts)) {
        AtomsShapeDown(p, Join(rest));
      }
      if forall k :: 0 <= k < |parts| ==> IsAtom(parts[k]) {
        assert forall k :: 0 <= k < |rest| ==> IsAtom(rest[k]) by {
          forall k | 0 <= k < |rest| ensures IsAtom(rest[k]) { assert rest[k] == parts[k + 1]; }
        }
        AtomsShapeUp(p, Join(rest));
      }
    }
  }

  lemma LabelsShapeDown(p: string, tail: string)
    requires '.' !in p
    requires DotSeparatedLabels(p + "." + tail)
    ensures IsLabel(p) && DotSeparatedLabels(tail)
  {
    var x := p + "." + tail;
    assert x[|p|] == '.';
    assert |p| > 0;
    assert x[0] == p[0];
    if |p| > 1 {
      assert x[|p| - 1] == p[|p| - 1];
    }
    forall i | 0 < i < |p| - 1 ensures IsLabelChar(p[i]) {
      assert x[i] == p[i];
    }
    assert |tail| > 0;
    assert tail[0] == x[|p| + 1];
    assert tail[|tail| - 1] == x[|x| - 1];
    forall i | 0 <= i < |tail| ensures IsLabelChar(tail[i]) || tail[i] == '.' {
      assert tail[i] == x[|p| + 1 + i];
    }
    forall i | 0 < i < |tail| - 1 && tail[i] == '.'
      ensures IsAlnum(tail[i - 1]) && IsAlnum(tail[i + 1])
    {
      assert tail[i] == x[|p| + 1 + i];
      assert tail[i - 1] == x[|p| + i] && tail[i + 1] == x[|p| + 2 + i];
    }
  }

  lemma LabelsShapeUp(p: string, tail: string)
    requires IsLabel(p) && DotSeparatedLabels(tail)
    ensures DotSeparatedLabels(p + "." + tail)
  {
    var x := p + "." + tail;
    assert x[0] == p[0];
    assert x[|x| - 1] == tail[|tail| - 1];
    forall i | 0 <= i < |x| ensures IsLabelChar(x[i]) || x[i] == '.' {
      if i < |p| {
        assert x[i] == p[i];
        assert 0 < i < |p| - 1 || IsAlnum(p[i]);
      } else if |p| < i {
        assert x[i] == tail[i - |p| - 1];
      }
    }
    forall i | |p| <= i < |x| - 1 && x[i] == '.' ensures IsAlnum(x[i - 1]) && IsAlnum(x[i + 1]) {
      if i == |p| {
        assert x[i - 1] == p[|p| - 1];
        assert x[i + 1] == tail[0];
      } else {
        assert x[i] == tail[i - |p| - 1];
        assert x[i - 1] == tail[i - |p| - 2];
        assert x[i + 1] == tail[i - |p|];
      }
    }
  }

  /** Dot-free pieces joined by dots form a dotted domain exactly when every piece is a label. */
  lemma {:induction false} JoinedLabelsShape(parts: seq<string>)
    requires |parts| >= 1
    requires forall k :: 0 <= k < |parts| ==> '.' !in parts[k]
    ensures DotSeparatedLabels(Join(parts)) <==> forall k :: 0 <= k < |parts| ==> IsLabel(parts[k])
    decreases |parts|
  {
    if |parts| > 1 {
      var p, rest := parts[0], parts[1..];
      assert parts == [p] + rest;
      JoinedLabelsShape(rest);
      JoinCons(p, rest);
      if DotSeparatedLabels(Join(parts)) {
        LabelsShapeDown(p, Join(rest));
      }
      if forall k :: 0 <= k < |parts| ==> IsLabel(parts[k]) {
        assert forall k :: 0 <= k < |rest| ==> IsLabel(rest[k]) by {
          forall k | 0 <= k < |rest| ensures IsLabel(rest[k]) { assert rest[k] == parts[k + 1]; }
        }
        LabelsShapeUp(p, Join(rest));
      }
    }
  }

  /** The local part is accepted iff it is non-empty atoms separated by single dots, none leading or trailing. */
  lemma LocalPartShape(local: string)
    ensures LocalPartOk(local) <==> DotSeparatedAtoms(local)
  {
    JoinSplit(local);
    SplitPiecesDotFree(local);
    JoinedAtomsShape(Split(local));
  }

  /**
   * The domain is accepted iff it has a dot, and every dot-separated label is
   * non-empty, starts and ends with a letter or digit, and has hyphens only inside.
   */
  lemma DomainShape(domain: string)
    ensures DomainOk(domain) <==> DotSeparatedLabels(domain) && '.' in domain
  {
    JoinSplit(domain);
    SplitPiecesDotFree(domain);
    JoinedLabelsShape(Split(domain));
    if '.' !in domain {
      SplitDotFree(domain);
    }
  }

  /**
   * The recogniser restated character by character: before the first '@' a
   * dot-separated run of atoms; after it a domain with at least one dot whose
   * labels start and end with a letter or digit.
   */
  lemma MatchesAddressShape(s: string)
    ensures MatchesAddress(s) <==>
      var at := IndexOf(s, '@');
      && at < |s|
      && DotSeparatedAtoms(s[..at])
      && DotSeparatedLabels(s[at + 1..])
      && '.' in s[at + 1..]
  {
    var at := IndexOf(s, '@');
    if at < |s| {
      LocalPartShape(s[..at]);
      DomainShape(s[at + 1..]);
    }
  }

  // ---------------------------------------------------------------------
  // Case insensitivity
  // ---------------------------------------------------------------------

  function LowerAll(parts: seq<string>): seq<string>
  {
    seq(|parts|, k requires 0 <= k < |parts| => ToLower(parts[k]))
  }

  lemma LowerAllCons(p: string, rest: seq<string>)
    ensures LowerAll([p] + rest) == [ToLower(p)] + LowerAll(rest)
  {
    var l, r := LowerAll([p] + rest), [ToLower(p)] + LowerAll(rest);
    forall k | 0 <= k < |l| ensures l[k] == r[k] {
      if k > 0 {
        assert ([p] + rest)[k] == rest[k - 1];
      }
    }
  }

  lemma LowerAllTail(parts: seq<string>)
    requires parts != []
    ensures LowerAll(parts)[0] == ToLower(parts[0])
    ensures LowerAll(parts[1..]) == LowerAll(parts)[1..]
  {
  }

  /** Lower-casing a string that does not start with a dot extends its first piece. */
  lemma SplitLowerNonDot(x: string)
    requires x != [] && x[0] != '.'
    requires Split(ToLower(x)[1..]) == LowerAll(Split(x[1..]))
    ensures Split(ToLower(x)) == LowerAll(Split(x))
  {
    var lx := ToLower(x);
    var rest := Split(x[1..]);
    var lrest := LowerAll(rest);
    assert lx[0] == Lower(x[0]) && lx[0] != '.';
    assert Split(lx) == [[lx[0]] + lrest[0]] + lrest[1..];
    assert Split(x) == [[x[0]] + rest[0]] + rest[1..];
    LowerAllCons([x[0]] + rest[0], rest[1..]);
    LowerAllTail(rest);
    ToLowerAppend([x[0]], rest[0]);
    assert ToLower([x[0]]) == [lx[0]];
  }

  /** Lower-casing a string that starts with a dot keeps the empty first piece. */
  lemma SplitLowerDot(x: string)
    requires x != [] && x[0] == '.'
    requires Split(ToLower(x)[1..]) == LowerAll(Split(x[1..]))
    ensures Split(ToLower(x)) == LowerAll(Split(x))
  {
    var rest := Split(x[1..]);
    assert ToLower(x)[0] == '.';
    assert Split(x) == [[]] + rest;
    LowerAllCons([], rest);
    assert ToLower([]) == [];
  }

  /** Lower-casing and splitting on dots commute. */
  lemma {:induction false} SplitLower(x: string)
    ensures Split(ToLower(x)) == LowerAll(Split(x))
    decreases |x|
  {
    if x == [] {
      assert ToLower(x) == [];
    } else {
      assert ToLower(x)[1..] == ToLower(x[1..]);
      SplitLower(x[1..]);
      if x[0] == '.' {
        SplitLowerDot(x);
      } else {
        SplitLowerNonDot(x);
      }
    }
  }

  lemma AtomCaseInsensitive(a: string)
    ensures IsAtom(ToLower(a)) == IsAtom(a)
  {
    forall i | 0 <= i < |a| ensures IsAtomChar(ToLower(a)[i]) == IsAtomChar(a[i]) {
      var c := a[i];
      assert ToLower(a)[i] == Lower(c);
      if 'A' <= c <= 'Z' {
        assert IsAlnum(c) && IsAlnum(Lower(c));
      } else {
        assert Lower(c) == c;
      }
    }
  }

  lemma LabelCaseInsensitive(l: string)
    ensures IsLabel(ToLower(l)) == IsLabel(l)
  {
    forall i | 0 <= i < |l| ensures IsAlnum(ToLower(l)[i]) == IsAlnum(l[i]) {
      assert Lower(Lower(l[i])) == Lower(l[i]);
    }
  }

  /** Lower-casing moves no '@'. */
  lemma IndexOfAtLower(s: string)
    ensures IndexOf(ToLower(s), '@') == IndexOf(s, '@')
  {
    var ls := ToLower(s);
    assert forall j :: 0 <= j < |s| ==> (ls[j] == '@' <==> s[j] == '@');
  }

  lemma LocalPartLower(local: string)
    ensures LocalPartOk(ToLower(local)) == LocalPartOk(local)
  {
    SplitLower(local);
    var atoms := Split(local);
    forall k | 0 <= k < |atoms| ensures IsAtom(LowerAll(atoms)[k]) == IsAtom(atoms[k]) {
      AtomCaseInsensitive(atoms[k]);
    }
  }

  lemma DomainLower(domain: string)
    ensures DomainOk(ToLower(domain)) == DomainOk(domain)
  {
    SplitLower(domain);
    var labels := Split(domain);
    forall k | 0 <= k < |labels| ensures IsLabel(LowerAll(labels)[k]) == IsLabel(labels[k]) {
      LabelCaseInsensitive(labels[k]);
    }
  }

  lemma MatchesLower(s: string)
    ensures MatchesAddress(ToLower(s)) == MatchesAddress(s)
  {
    var ls := ToLower(s);
    var at := IndexOf(s, '@');
    IndexOfAtLower(s);
    if at < |s| {
      assert ls[..at] == ToLower(s[..at]);
      assert ls[at + 1..] == ToLower(s[at + 1..]);
      LocalPartLower(s[..at]);
      DomainLower(s[at + 1..]);
    }
  }

  /** Lower-casing keeps a final newline, and what comes before it is accepted alike. */
  lemma NewlineFormLower(u: string)
    requires |u| > 0
    ensures var lu, n := ToLower(u), |u| - 1;
      (lu[n] == '\n' && MatchesAddress(lu[..n])) == (u[n] == '\n' && MatchesAddress(u[..n]))
  {
    var n := |u| - 1;
    assert ToLower(u)[..n] == ToLower(u[..n]);
    MatchesLower(u[..n]);
  }

  lemma ValidUnderLower(u: string)
    ensures IsValidEmail(ToLower(u)) == IsValidEmail(u)
  {
    MatchesLower(u);
    if |u| > 0 {
      NewlineFormLower(u);
    }
  }

  /** Two strings that differ only in the case of ASCII letters are both accepted or both rejected. */
  lemma IsValidEmailIgnoresCase(s: string, t: string)
    requires ToLower(s) == ToLower(t)
    ensures IsValidEmail(s) == IsValidEmail(t)
  {
    ValidUnderLower(s);
    ValidUnderLower(t);
  }

  // ---------------------------------------------------------------------
  // Examples
  // ---------------------------------------------------------------------

  lemma AcceptsPlainAddress()
    ensures IsValidEmail("user@example.com")
  {
    var atoms, labels := ["user"], ["example", "com"];
    assert Join(labels) == "example" + "." + Join(["com"]);
    assert Assemble(atoms, labels) == "user@example.com";
    AssembledMatches(atoms, labels);
  }

  lemma AcceptsCapitalisedAddress()
    ensures IsValidEmail("User@example.com")
  {
    var atoms, labels := ["User"], ["example", "com"];
    assert Join(labels) == "example" + "." + Join(["com"]);
    assert Assemble(atoms, labels) == "User@example.com";
    AssembledMatches(atoms, labels);
  }

  /** A string with no '@', or with more than one, is rejected. */
  lemma RejectsUnlessOneAt(s: string)
    requires Count(s, '@') != 1
    ensures !IsValidEmail(s)
  {
    if IsValidEmail(s) {
      AcceptedAddressShape(s);
    }
  }

  lemma RejectsDoubleAt()
    ensures !IsValidEmail("user@@example")
  {
    assert Count("user@@example", '@') == 2;
    RejectsUnlessOneAt("user@@example");
  }

  // ---------------------------------------------------------------------
  // ValidateEmailList
  // ---------------------------------------------------------------------

  /** A null or empty list is valid; otherwise every address must be. */
  predicate EmailListValid(emailAddresses: Option<seq<string>>)
  {
    match emailAddresses
    case None => true
    case Some(xs) => forall i :: 0 <= i < |xs| ==> IsValidEmail(xs[i])
  }

  /**
   * `Util.ValidateEmailList`. `checked` counts the addresses handed to
   * `IsValidEmail`: on a rejection it is one past the first invalid address,
   * so nothing after that address is looked at.
   */
  method ValidateEmailList(emailAddresses: Option<seq<string>>) returns (valid: bool, ghost checked: nat)
    ensures valid == EmailListValid(emailAddresses)
    ensures !valid ==> && 0 < checked <= |emailAddresses.value|
                       && !IsValidEmail(emailAddresses.value[checked - 1])
                       && forall i :: 0 <= i < checked - 1 ==> IsValidEmail(emailAddresses.value[i])
  {
    if emailAddresses.None? || |emailAddresses.value| == 0 {
      return true, 0;
    }
    var xs := emailAddresses.value;
    checked := 0;
    for i := 0 to |xs|
      invariant checked == i
      invariant forall j :: 0 <= j < i ==> IsValidEmail(xs[j])
    {
      checked := checked + 1;
      if !IsValidEmail(xs[i]) {
        return false, checked;
      }
    }
    return true, checked;
  }

  lemma ListWithInvalidAddressRejected()
    ensures !EmailListValid(Some(["a@b.com", "bad"]))
  {
    var xs := ["a@b.com", "bad"];
    assert xs[1] == "bad";
    CountAbsent("bad", '@');
    RejectsUnlessOneAt("bad");
  }
}
