/**
 * The decisions the storage facade takes on its own, with the storage
 * service reduced to the answers it gives: the bucket listing, HTTP status
 * codes, the chunks a response stream yields, and the faults it raises.
 * Bucket operations return the requests they send, in order, so "the
 * service is not contacted" reads `calls == []`.
 */
module S3Integration {
  import opened Wrappers
  import opened Text
  import opened Service

  /** A byte, as in `byte[]`. */
  newtype uint8 = x: int | 0 <= x < 256

  /** Length of the buffer `GetFile` reads the response stream through. */
  const BufferSize: nat := 16 * 1024

  /** The bucket requests the facade sends to the storage service. */
  datatype S3Call =
    | ListBuckets
    | PutBucket(bucketName: string)

  // ---------------------------------------------------------------------
  // Buckets

  /** What `CreateBucket` returns, with the requests it sent. */
  datatype Created = Created(created: bool, calls: seq<S3Call>)

  /**
   * `CreateBucket`: a null or empty name is refused locally; any other name
   * is sent as it is, and the answer is whether the service replied OK.
   */
  function CreateBucket(bucketName: Option<string>, putBucketStatus: nat): (r: Created)
    ensures r.calls == [] <==> bucketName.None? || bucketName.value == []
    ensures r.calls != [] ==> r.calls == [PutBucket(bucketName.value)]
    ensures r.created <==> r.calls != [] && putBucketStatus == HttpOk
  {
    if bucketName.None? || bucketName.value == [] then Created(false, [])
    else Created(putBucketStatus == HttpOk, [PutBucket(bucketName.value)])
  }

  /** The name `CreateBucketIfNotExists` looks for and creates: lower-cased, then trimmed. */
  function NormalizeBucketName(bucketName: string): (name: string)
    ensures |name| <= |bucketName|
    ensures ToLower(name) == name
    ensures name == [] || (!IsWhiteSpace(name[0]) && !IsWhiteSpace(name[|name| - 1]))
  {
    TrimKeepsLowerCase(ToLower(bucketName));
    Trim(ToLower(bucketName))
  }

  /** Whether some listed bucket, lower-cased, is `name`. */
  function BucketExists(bucketNames: seq<string>, name: string): (found: bool)
    ensures found <==> exists i :: 0 <= i < |bucketNames| && ToLower(bucketNames[i]) == name
  {
    if bucketNames == [] then false
    else ToLower(bucketNames[0]) == name || BucketExists(bucketNames[1..], name)
  }

  /**
   * When `CreateBucketIfNotExists` asks for a new bucket: the name is
   * non-empty, the listing came back, no listed bucket matches the
   * normalised name, and that name is not empty (`CreateBucket` would
   * refuse it).
   */
  predicate CreationRequested(bucketName: Option<string>, bucketNames: Option<seq<string>>)
  {
    && bucketName.Some? && bucketName.value != []
    && bucketNames.Some?
    && (forall i :: 0 <= i < |bucketNames.value| ==>
          ToLower(bucketNames.value[i]) != NormalizeBucketName(bucketName.value))
    && NormalizeBucketName(bucketName.value) != []
  }

  /**
   * `CreateBucketIfNotExists`, as the requests it sends. `bucketNames` is
   * the listing the service returns (`None` for a null list) and
   * `putBucketStatus` the answer to a creation, which is ignored.
   */
  function CreateBucketIfNotExists(bucketName: Option<string>, bucketNames: Option<seq<string>>,
                                   putBucketStatus: nat): (calls: seq<S3Call>)
    ensures calls == [] <==> bucketName.None? || bucketName.value == []
    ensures calls != [] ==> calls[0] == ListBuckets
    ensures calls != [] ==> |calls| == (if CreationRequested(bucketName, bucketNames) then 2 else 1)
    ensures forall name :: PutBucket(name) in calls <==>
      CreationRequested(bucketName, bucketNames) && name == NormalizeBucketName(bucketName.value)
  {
    if bucketName.None? || bucketName.value == [] then []
    else
      var name := NormalizeBucketName(bucketName.value);
      [ListBuckets] +
        match bucketNames
        case None => []
        case Some(names) =>
          if BucketExists(names, name) then [] else CreateBucket(Some(name), putBucketStatus).calls
  }

  /** Two names that differ only in case and surrounding white space normalise alike. */
  lemma NormalizeIgnoresCaseAndPadding(pre: string, x: string, post: string, y: string)
    requires AllWhiteSpace(pre) && AllWhiteSpace(post) && ToLower(x) == ToLower(y)
    ensures NormalizeBucketName(pre + x + post) == NormalizeBucketName(y)
  {
    ToLowerAppend(pre + x, post);
    ToLowerAppend(pre, x);
    ToLowerKeepsWhiteSpace(pre);
    ToLowerKeepsWhiteSpace(post);
    TrimIgnoresPadding(pre, ToLower(x), post);
  }

  /**
   * Two names that differ only in case and surrounding white space lead to
   * the same requests against the same listing.
   */
  lemma ProvisioningIgnoresCaseAndPadding(pre: string, x: string, post: string, y: string,
                                          bucketNames: Option<seq<string>>, putBucketStatus: nat)
    requires AllWhiteSpace(pre) && AllWhiteSpace(post) && ToLower(x) == ToLower(y)
    requires pre + x + post != [] && y != []
    ensures CreateBucketIfNotExists(Some(pre + x + post), bucketNames, putBucketStatus)
         == CreateBucketIfNotExists(Some(y), bucketNames, putBucketStatus)
  {
    NormalizeIgnoresCaseAndPadding(pre, x, post, y);
  }

  /** Normalising a normalised name changes nothing. */
  lemma NormalizeIdempotent(bucketName: string)
    ensures NormalizeBucketName(NormalizeBucketName(bucketName)) == NormalizeBucketName(bucketName)
  {
    TrimIdempotent(ToLower(bucketName));
  }

  /** Every bucket the facade creates has a non-empty name already in normal form. */
  lemma CreatedNamesAreNormal(bucketName: Option<string>, bucketNames: Option<seq<string>>,
                              putBucketStatus: nat, name: string)
    requires PutBucket(name) in CreateBucketIfNotExists(bucketName, bucketNames, putBucketStatus)
    ensures name != [] && NormalizeBucketName(name) == name
  {
    NormalizeIdempotent(bucketName.value);
  }

  /** A name made only of white space is looked up but never created. */
  lemma WhiteSpaceNameIsNeverCreated(bucketName: string, bucketNames: Option<seq<string>>,
                                     putBucketStatus: nat)
    requires bucketName != [] && AllWhiteSpace(bucketName)
    ensures CreateBucketIfNotExists(Some(bucketName), bucketNames, putBucketStatus) == [ListBuckets]
  {
    ToLowerKeepsWhiteSpace(bucketName);
  }

  /** The names normalising leaves alone are exactly the lower-case names with no padding. */
  lemma NormalFormIff(name: string)
    ensures NormalizeBucketName(name) == name <==>
      ToLower(name) == name && (name == [] || (!IsWhiteSpace(name[0]) && !IsWhiteSpace(name[|name| - 1])))
  {
    if ToLower(name) == name && (name == [] || (!IsWhiteSpace(name[0]) && !IsWhiteSpace(name[|name| - 1]))) {
      TrimUnpadded(name);
    }
  }

  /** "photos" is already in normal form. */
  lemma LowerCaseNameIsNormal()
    ensures NormalizeBucketName("photos") == "photos"
  {
    var name := "photos";
    assert forall i :: 0 <= i < |name| ==> ToLower(name)[i] == name[i];
    assert ToLower(name) == name;
    TrimUnpadded(name);
  }

  /** "Photos", padded with any white space, normalises to "photos". */
  lemma PaddedNameNormalizes(pad: string)
    requires AllWhiteSpace(pad)
    ensures NormalizeBucketName(pad + "Photos" + pad) == "photos"
  {
    var lower := "photos";
    assert ToLower("Photos") == ToLower(lower) by {
      assert forall i :: 0 <= i < |lower| ==> ToLower("Photos")[i] == ToLower(lower)[i];
    }
    NormalizeIgnoresCaseAndPadding(pad, "Photos", pad, lower);
    LowerCaseNameIsNormal();
  }

  /** "PHOTOS" in a listing matches the name "photos". */
  lemma ListedInOtherCase()
    ensures BucketExists(["archive", "PHOTOS"], "photos")
  {
    var listed := "PHOTOS";
    assert forall i :: 0 <= i < |listed| ==> ToLower(listed)[i] == "photos"[i];
    assert ToLower(listed) == "photos";
  }

  /** A listed bucket that differs only in case is found, and nothing is created. */
  lemma ExistingBucketIsNotCreated(pad: string)
    requires AllWhiteSpace(pad)
    ensures CreateBucketIfNotExists(Some(pad + "Photos" + pad), Some(["archive", "PHOTOS"]), HttpOk)
         == [ListBuckets]
  {
    PaddedNameNormalizes(pad);
    ListedInOtherCase();
  }

  /** A listing of "archive" does not hold "photos". */
  lemma NotListed()
    ensures !BucketExists(["archive"], "photos")
  {
    assert ToLower("archive")[0] != "photos"[0];
  }

  /** An absent bucket is created under its normalised name. */
  lemma AbsentBucketIsCreated(pad: string)
    requires AllWhiteSpace(pad)
    ensures CreateBucketIfNotExists(Some(pad + "Photos" + pad), Some(["archive"]), HttpOk)
         == [ListBuckets, PutBucket("photos")]
  {
    PaddedNameNormalizes(pad);
    NotListed();
  }

  // ---------------------------------------------------------------------
  // Uploads

  /** The storage-service request `CreateFile` and `UploadFile` fill in field by field. */
  class PutObjectRequest {
    var bucketName: Option<string>
    var key: Option<string>
    var contentBody: Option<string>
    var inputStream: Option<seq<uint8>>
    var metadata: map<string, string>

    /** A request with no field set and no metadata. */
    constructor ()
      ensures bucketName == None && key == None && contentBody == None && inputStream == None
      ensures metadata == map[]
    {
      bucketName := None;
      key := None;
      contentBody := None;
      inputStream := None;
      metadata := map[];
    }

    /**
     * The metadata loop: every entry of a non-null, non-empty dictionary is
     * added to the request's metadata; a null or empty one adds nothing.
     */
    method AddMetadata(entries: Option<map<string, string>>)
      modifies this
      ensures metadata == old(metadata) + MetadataOf(entries)
      ensures bucketName == old(bucketName) && key == old(key)
      ensures contentBody == old(contentBody) && inputStream == old(inputStream)
    {
      if entries.Some? && |entries.value| > 0 {
        var source := entries.value;
        var pending := source.Keys;
        while pending != {}
          invariant pending <= source.Keys
          invariant metadata == old(metadata) + map k | k in source.Keys - pending :: source[k]
          invariant bucketName == old(bucketName) && key == old(key)
          invariant contentBody == old(contentBody) && inputStream == old(inputStream)
          decreases pending
        {
          var k :| k in pending;
          metadata := metadata[k := source[k]];
          pending := pending - {k};
        }
        assert source.Keys - pending == source.Keys;
        assert (map k | k in source.Keys :: source[k]) == source;
      }
    }
  }

  /** The entries a metadata dictionary contributes: none when it is null. */
  function MetadataOf(entries: Option<map<string, string>>): map<string, string>
  {
    if entries.Some? then entries.value else map[]
  }

  /**
   * `CreateFile`: stores `fileContent` under `fileName` in `bucketName`, with
   * the given metadata; true iff the service answers OK.
   */
  method CreateFile(fileContent: string, fileName: string, bucketName: string,
                    metadata: Option<map<string, string>>, putObjectStatus: nat)
    returns (ok: bool, request: PutObjectRequest)
    ensures fresh(request)
    ensures request.contentBody == Some(fileContent) && request.inputStream == None
    ensures request.bucketName == Some(bucketName) && request.key == Some(fileName)
    ensures request.metadata == MetadataOf(metadata)
    ensures ok <==> putObjectStatus == HttpOk
  {
    request := new PutObjectRequest();
    request.contentBody := Some(fileContent);
    request.bucketName := Some(bucketName);
    request.key := Some(fileName);
    request.AddMetadata(metadata);
    ok := putObjectStatus == HttpOk;
  }

  /**
   * `UploadFile` on a stream (and on a byte array, which it wraps in a
   * stream): provisions the bucket first, then stores the stream under
   * `path` in the bucket named exactly as given; true iff the service
   * answers OK.
   */
  method UploadFile(bucketName: string, path: string, inputStream: seq<uint8>,
                    metadata: Option<map<string, string>>,
                    bucketNames: Option<seq<string>>, putBucketStatus: nat, putObjectStatus: nat)
    returns (ok: bool, provisioning: seq<S3Call>, request: PutObjectRequest)
    ensures provisioning == CreateBucketIfNotExists(Some(bucketName), bucketNames, putBucketStatus)
    ensures fresh(request)
    ensures request.inputStream == Some(inputStream) && request.contentBody == None
    ensures request.bucketName == Some(bucketName) && request.key == Some(path)
    ensures request.metadata == MetadataOf(metadata)
    ensures ok <==> putObjectStatus == HttpOk
  {
    request := new PutObjectRequest();
    request.bucketName := Some(bucketName);
    request.key := Some(path);
    request.inputStream := Some(inputStream);
    request.AddMetadata(metadata);
    ok := putObjectStatus == HttpOk;
    provisioning := CreateBucketIfNotExists(Some(bucketName), bucketNames, putBucketStatus);
  }

  /** The three-argument `UploadFile`: the same upload with no metadata. */
  method UploadFileWithoutMetadata(bucketName: string, fileName: string, fileBytes: seq<uint8>,
                                   bucketNames: Option<seq<string>>, putBucketStatus: nat,
                                   putObjectStatus: nat)
    returns (ok: bool, provisioning: seq<S3Call>, request: PutObjectRequest)
    ensures provisioning == CreateBucketIfNotExists(Some(bucketName), bucketNames, putBucketStatus)
    ensures fresh(request)
    ensures request.inputStream == Some(fileBytes) && request.contentBody == None
    ensures request.bucketName == Some(bucketName) && request.key == Some(fileName)
    ensures request.metadata == map[]
    ensures ok <==> putObjectStatus == HttpOk
  {
    ok, provisioning, request :=
      UploadFile(bucketName, fileName, fileBytes, None, bucketNames, putBucketStatus, putObjectStatus);
  }

  // ---------------------------------------------------------------------
  // Downloads

  /** The bytes of a run of chunks, in order. */
  function Concat(chunks: seq<seq<uint8>>): seq<uint8>
  {
    if chunks == [] then [] else Concat(chunks[..|chunks| - 1]) + chunks[|chunks| - 1]
  }

  /** The position of the first empty read, where the copy loop stops. */
  function FirstEmpty(stream: seq<seq<uint8>>): (n: nat)
    ensures n <= |stream|
    ensures n < |stream| ==> stream[n] == []
    ensures forall j :: 0 <= j < n ==> stream[j] != []
  {
    if stream == [] || stream[0] == [] then 0 else 1 + FirstEmpty(stream[1..])
  }

  /**
   * `Stream.Read(buffer, 0, buffer.Length)` on a response stream that yields
   * the chunks `stream`: the read at `position` copies that chunk to the
   * front of the buffer and returns its length; past the end it returns 0.
   */
  method Read(stream: seq<seq<uint8>>, position: nat, buffer: array<uint8>) returns (read: nat)
    requires forall j :: 0 <= j < |stream| ==> |stream[j]| <= buffer.Length
    modifies buffer
    ensures position < |stream| ==> read == |stream[position]| && buffer[..read] == stream[position]
    ensures position >= |stream| ==> read == 0
  {
    if position < |stream| {
      var chunk := stream[position];
      forall k | 0 <= k < |chunk| {
        buffer[k] := chunk[k];
      }
      read := |chunk|;
    } else {
      read := 0;
    }
  }

  /**
   * `GetFile`: reads the object's stream through a 16 KiB buffer and returns
   * every chunk read before the first empty read, in order. A stream never
   * hands back more than the buffer holds.
   */
  method GetFile(stream: seq<seq<uint8>>) returns (bytes: seq<uint8>)
    requires forall j :: 0 <= j < |stream| ==> |stream[j]| <= BufferSize
    ensures bytes == Concat(stream[..FirstEmpty(stream)])
  {
    var buffer := new uint8[BufferSize];
    var ms: seq<uint8> := [];
    var position := 0;
    while true
      invariant position <= FirstEmpty(stream)
      invariant ms == Concat(stream[..position])
      decreases FirstEmpty(stream) - position
    {
      var read := Read(stream, position, buffer);
      if read == 0 {
        assert position == FirstEmpty(stream);
        break;
      }
      assert stream[..position + 1][..position] == stream[..position];
      ms := ms + buffer[..read];
      position := position + 1;
    }
    bytes := ms;
  }

  /** One way the service can deliver an object: full buffers, then the rest. */
  function Chunks(obj: seq<uint8>): (chunks: seq<seq<uint8>>)
    ensures forall j :: 0 <= j < |chunks| ==> 0 < |chunks[j]| <= BufferSize
    decreases |obj|
  {
    if obj == [] then []
    else if |obj| <= BufferSize then [obj]
    else [obj[..BufferSize]] + Chunks(obj[BufferSize..])
  }

  lemma {:induction false} ConcatCons(chunk: seq<uint8>, rest: seq<seq<uint8>>)
    ensures Concat([chunk] + rest) == chunk + Concat(rest)
    decreases |rest|
  {
    if rest != [] {
      var last := |rest| - 1;
      assert ([chunk] + rest)[..|rest|] == [chunk] + rest[..last];
      ConcatCons(chunk, rest[..last]);
    } else {
      assert [chunk] + rest == [chunk];
      assert [chunk][..0] == [];
    }
  }

  lemma {:induction false} ChunksReassemble(obj: seq<uint8>)
    ensures Concat(Chunks(obj)) == obj
    decreases |obj|
  {
    if |obj| > BufferSize {
      ConcatCons(obj[..BufferSize], Chunks(obj[BufferSize..]));
      ChunksReassemble(obj[BufferSize..]);
      assert obj[..BufferSize] + obj[BufferSize..] == obj;
    } else if obj != [] {
      assert [obj][..0] == [];
    }
  }

  /**
   * Whatever its size, an object delivered as non-empty chunks of at most
   * the buffer size comes back whole; `Chunks` shows such a delivery exists.
   */
  lemma GetFileReturnsWholeObject(obj: seq<uint8>, stream: seq<seq<uint8>>)
    requires forall j :: 0 <= j < |stream| ==> 0 < |stream[j]| <= BufferSize
    requires Concat(stream) == obj
    ensures Concat(stream[..FirstEmpty(stream)]) == obj
  {
    assert stream[..|stream|] == stream;
  }

  /** The full-buffers-then-the-rest delivery of any object is such a delivery. */
  lemma ChunksDeliverWholeObject(obj: seq<uint8>)
    ensures var stream := Chunks(obj);
      && (forall j :: 0 <= j < |stream| ==> 0 < |stream[j]| <= BufferSize)
      && Concat(stream[..FirstEmpty(stream)]) == obj
  {
    ChunksReassemble(obj);
    GetFileReturnsWholeObject(obj, Chunks(obj));
  }

  /** Chunks after the first empty read never reach the result. */
  lemma {:induction false} ReadingStopsAtFirstEmpty(before: seq<seq<uint8>>, after: seq<seq<uint8>>)
    requires forall j :: 0 <= j < |before| ==> before[j] != []
    ensures var stream := before + [[]] + after;
      Concat(stream[..FirstEmpty(stream)]) == Concat(before)
  {
    var stream := before + [[]] + after;
    assert stream[|before|] == [];
    assert FirstEmpty(stream) == |before|;
    assert stream[..|before|] == before;
  }

  // ---------------------------------------------------------------------
  // Deleting and listing objects

  const CredentialsMessage: string := "Please check the provided AWS Credentials."
  const DeleteFailedPrefix: string := "An error occurred with the message '"
  const DeleteFailedSuffix: string := "' when deleting an object"

  /** The message thrown for any other storage-service failure while deleting. */
  function DeleteFailedMessage(message: string): (text: string)
    ensures text == "An error occurred with the message '" + message + "' when deleting an object"
    ensures text[..|DeleteFailedPrefix|] == DeleteFailedPrefix
    ensures text[|DeleteFailedPrefix|..|text| - |DeleteFailedSuffix|] == message
    ensures text[|text| - |DeleteFailedSuffix|..] == DeleteFailedSuffix
  {
    DeleteFailedPrefix + message + DeleteFailedSuffix
  }

  /** Recovers the service's message from a thrown deletion message, if it is one. */
  function ParseDeleteFailedMessage(text: string): (message: Option<string>)
    ensures message.Some? ==> DeleteFailedMessage(message.value) == text
  {
    if |text| >= |DeleteFailedPrefix| + |DeleteFailedSuffix|
       && text[..|DeleteFailedPrefix|] == DeleteFailedPrefix
       && text[|text| - |DeleteFailedSuffix|..] == DeleteFailedSuffix
    then
      var message := text[|DeleteFailedPrefix|..|text| - |DeleteFailedSuffix|];
      assert text == DeleteFailedPrefix + message + DeleteFailedSuffix;
      Some(message)
    else None
  }

  /** Error codes the facade reports as bad credentials. */
  predicate IsCredentialsError(errorCode: Option<string>)
  {
    errorCode == Some("InvalidAccessKeyId") || errorCode == Some("InvalidSecurity")
  }

  /**
   * `DeletingAnObject`, given how the delete call ended (`None`: it
   * returned); the answer is what the facade throws, if anything.
   */
  function DeletingAnObject(deleteFault: Option<RemoteFault>): (thrown: Option<Exception>)
    ensures thrown.None? <==> deleteFault.None?
    ensures deleteFault.Some? && deleteFault.value.AmazonS3Exception? ==>
      thrown.value.GeneralException? &&
      (IsCredentialsError(deleteFault.value.errorCode) <==> thrown.value.message == CredentialsMessage) &&
      (!IsCredentialsError(deleteFault.value.errorCode) ==>
         ParseDeleteFailedMessage(thrown.value.message) == Some(deleteFault.value.message))
    ensures deleteFault.Some? && !deleteFault.value.AmazonS3Exception? ==>
      thrown == Some(Remote(deleteFault.value))
  {
    match deleteFault
    case None => None
    case Some(fault) =>
      if fault.AmazonS3Exception? then
        if IsCredentialsError(fault.errorCode) then Some(GeneralException(CredentialsMessage))
        else
          DeleteFailedMessageRoundTrip(fault.message);
          CredentialsMessageIsNotDeleteFailed(fault.message);
          Some(GeneralException(DeleteFailedMessage(fault.message)))
      else Some(Remote(fault))
  }

  /** The generic deletion message gives back the service's message. */
  lemma DeleteFailedMessageRoundTrip(message: string)
    ensures ParseDeleteFailedMessage(DeleteFailedMessage(message)) == Some(message)
  {
    var text := DeleteFailedMessage(message);
    assert text[..|DeleteFailedPrefix|] == DeleteFailedPrefix;
    assert text[|text| - |DeleteFailedSuffix|..] == DeleteFailedSuffix;
    assert text[|DeleteFailedPrefix|..|text| - |DeleteFailedSuffix|] == message;
  }

  /** A storage-service failure with no error code and message "x" throws the generic text in full. */
  lemma DeleteFailureMessageText()
    ensures DeletingAnObject(Some(AmazonS3Exception(None, "x")))
         == Some(GeneralException("An error occurred with the message 'x' when deleting an object"))
  {
    var text := DeleteFailedMessage("x");
    assert text == "An error occurred with the message '" + "x" + "' when deleting an object";
    assert text == "An error occurred with the message 'x' when deleting an object";
  }

  /** The credentials message is never a generic deletion message. */
  lemma CredentialsMessageIsNotDeleteFailed(message: string)
    ensures DeleteFailedMessage(message) != CredentialsMessage
  {
  }

  /** `ListObjectsRequest` with the fields the facade may set. */
  datatype ListObjectsRequest = ListObjectsRequest(bucketName: string, prefix: Option<string>, maxKeys: Option<int>)

  /**
   * The request `ListObjects` sends: the prefix only when it is non-empty,
   * the key limit only when one is given.
   */
  function ListObjects(bucketName: string, prefix: Option<string>, maxEntries: Option<int>)
    : (request: ListObjectsRequest)
    ensures request.bucketName == bucketName
    ensures request.prefix.Some? <==> prefix.Some? && prefix.value != []
    ensures request.prefix.Some? ==> request.prefix == prefix
    ensures request.maxKeys == maxEntries
  {
    var request := ListObjectsRequest(bucketName, None, None);
    var request := if prefix.Some? && prefix.value != [] then request.(prefix := prefix) else request;
    if maxEntries.Some? then request.(maxKeys := maxEntries) else request
  }
}
