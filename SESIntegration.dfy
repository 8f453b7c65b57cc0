/**
 * The mail facade: every operation validates its addresses before it builds
 * a request or contacts the mail service, then assembles one request and
 * reports the service's answer. The service is reduced to its reply (a
 * status code, the verified-address list, or a fault); each operation
 * returns the requests it sends, so "the service is not contacted" reads
 * `calls == []`.
 */
module SESIntegration {
  import opened Wrappers
  import opened Text
  import opened Service
  import opened Util

  datatype Content = Content(data: string)

  /** The message body; the facade only ever sets the HTML part. */
  datatype Body = Body(html: Option<Content>)

  datatype Message = Message(subject: Content, body: Body)

  /** Who receives a message; a field left unset is `None`. */
  datatype Destination = Destination(toAddresses: Option<seq<string>>, bccAddresses: Option<seq<string>>)

  datatype SendEmailRequest = SendEmailRequest(source: string, destination: Destination, message: Message)

  /** The requests the facade sends to the mail service. */
  datatype SesCall =
    | SendEmail(request: SendEmailRequest)
    | ListVerifiedEmailAddresses
    | VerifyEmailAddress(emailAddress: string)

  /** What an operation returns or throws, with the requests it sent. */
  datatype Outcome<T> = Outcome(result: Result<T, Exception>, calls: seq<SesCall>)

  /** Thrown, before any request, when an address is not valid. */
  const InvalidAddress: Exception := InvalidOperationException("Invalid email address")

  /**
   * `SendMail` to a list: rejects an invalid sender or any invalid recipient
   * (a null or empty list passes); otherwise sends one request whose
   * recipients are all blind copies when `hideCopy` holds and all direct
   * recipients otherwise, and answers whether the service replied OK. A
   * fault from the service is passed on unchanged.
   */
  function SendMail(from: string, to: Option<seq<string>>, hideCopy: bool, subject: string, content: string,
                    reply: ServiceReply<nat>): (r: Outcome<bool>)
    ensures !(IsValidEmail(from) && EmailListValid(to)) ==> r == Outcome(Failure(InvalidAddress), [])
    ensures IsValidEmail(from) && EmailListValid(to) ==>
      && |r.calls| == 1 && r.calls[0].SendEmail?
      && r.calls[0].request.source == from
      && r.calls[0].request.message == Message(Content(subject), Body(Some(Content(content))))
      && (hideCopy ==> r.calls[0].request.destination == Destination(None, to))
      && (!hideCopy ==> r.calls[0].request.destination == Destination(to, None))
      && (r.result.Success? <==> reply.Answered?)
      && (reply.Answered? ==> (r.result.value <==> reply.value == HttpOk))
      && (reply.Raised? ==> r.result.error == Remote(reply.fault))
  {
    if !IsValidEmail(from) || !EmailListValid(to) then Outcome(Failure(InvalidAddress), [])
    else
      var body := Body(None);
      var body := body.(html := Some(Content(content)));
      var message := Message(Content(subject), body);
      var destination := Destination(None, None);
      var destination := if hideCopy then destination.(bccAddresses := to) else destination.(toAddresses := to);
      var request := SendEmailRequest(from, destination, message);
      match reply
      case Answered(status) => Outcome(Success(status == HttpOk), [SendEmail(request)])
      case Raised(fault) => Outcome(Failure(Remote(fault)), [SendEmail(request)])
  }

  /**
   * `SendMail` to one address: the list form with `[to]` as direct
   * recipient, so it goes ahead exactly when both addresses are valid.
   */
  function SendMailTo(from: string, to: string, subject: string, content: string,
                      reply: ServiceReply<nat>): (r: Outcome<bool>)
    ensures r == SendMail(from, Some([to]), false, subject, content, reply)
    ensures r.calls != [] <==> IsValidEmail(from) && IsValidEmail(to)
    ensures r.calls != [] ==> r.calls[0].request.destination == Destination(Some([to]), None)
  {
    assert EmailListValid(Some([to])) <==> IsValidEmail([to][0]);
    SendMail(from, Some([to]), false, subject, content, reply)
  }

  /**
   * `IsVerifiedEmail`: rejects an invalid address; otherwise fetches the
   * verified list and answers whether it holds exactly this string.
   */
  function IsVerifiedEmail(email: string, reply: ServiceReply<seq<string>>): (r: Outcome<bool>)
    ensures !IsValidEmail(email) ==> r == Outcome(Failure(InvalidAddress), [])
    ensures IsValidEmail(email) ==>
      && r.calls == [ListVerifiedEmailAddresses]
      && (reply.Answered? ==> (r.result == Success(true) <==> exists i :: 0 <= i < |reply.value| && reply.value[i] == email))
      && (reply.Answered? ==> r.result.Success?)
      && (reply.Raised? ==> r.result == Failure(Remote(reply.fault)))
  {
    if !IsValidEmail(email) then Outcome(Failure(InvalidAddress), [])
    else
      match reply
      case Answered(verifiedAddresses) =>
        Outcome(Success(email in verifiedAddresses), [ListVerifiedEmailAddresses])
      case Raised(fault) => Outcome(Failure(Remote(fault)), [ListVerifiedEmailAddresses])
  }

  /**
   * `SendVerificationEmailAmazonSES`: rejects an invalid address; otherwise
   * asks the service to verify it and answers whether the reply was OK.
   */
  function SendVerificationEmailAmazonSES(email: string, reply: ServiceReply<nat>): (r: Outcome<bool>)
    ensures !IsValidEmail(email) ==> r == Outcome(Failure(InvalidAddress), [])
    ensures IsValidEmail(email) ==>
      && r.calls == [VerifyEmailAddress(email)]
      && (reply.Answered? ==> r.result == Success(reply.value == HttpOk))
      && (reply.Raised? ==> r.result == Failure(Remote(reply.fault)))
  {
    if !IsValidEmail(email) then Outcome(Failure(InvalidAddress), [])
    else
      match reply
      case Answered(status) => Outcome(Success(status == HttpOk), [VerifyEmailAddress(email)])
      case Raised(fault) => Outcome(Failure(Remote(fault)), [VerifyEmailAddress(email)])
  }

  // ---------------------------------------------------------------------
  // Properties

  /** One invalid recipient, wherever it sits in the list, stops the send before any request. */
  lemma InvalidRecipientStopsSend(from: string, to: seq<string>, k: nat, hideCopy: bool,
                                  subject: string, content: string, reply: ServiceReply<nat>)
    requires k < |to| && !IsValidEmail(to[k])
    ensures SendMail(from, Some(to), hideCopy, subject, content, reply) == Outcome(Failure(InvalidAddress), [])
  {
    assert !EmailListValid(Some(to));
  }

  /** A null or empty recipient list does not stop a send from a valid sender. */
  lemma NoRecipientsStillSends(from: string, to: Option<seq<string>>, hideCopy: bool,
                               subject: string, content: string, reply: ServiceReply<nat>)
    requires IsValidEmail(from) && (to.None? || to.value == [])
    ensures |SendMail(from, to, hideCopy, subject, content, reply).calls| == 1
  {
  }

  /**
   * Whatever `hideCopy` says, the request carries the recipient list in
   * exactly one of its two fields, and it is the list given.
   */
  lemma RecipientsInOneField(from: string, to: seq<string>, hideCopy: bool,
                             subject: string, content: string, reply: ServiceReply<nat>)
    requires IsValidEmail(from) && EmailListValid(Some(to))
    ensures var destination := SendMail(from, Some(to), hideCopy, subject, content, reply).calls[0].request.destination;
      && (destination.toAddresses.Some? != destination.bccAddresses.Some?)
      && (destination.toAddresses == Some(to) || destination.bccAddresses == Some(to))
      && (destination.bccAddresses.Some? <==> hideCopy)
  {
  }

  /** A sender with two '@' is refused before any request. */
  lemma DoubleAtSenderRefused(to: Option<seq<string>>, hideCopy: bool, subject: string, content: string,
                              reply: ServiceReply<nat>)
    ensures SendMail("user@@example", to, hideCopy, subject, content, reply)
         == Outcome(Failure(InvalidAddress), [])
  {
    RejectsDoubleAt();
  }

  /**
   * The verified-list lookup is exact: an address that passes validation in
   * any case is verified only when listed with the same case.
   */
  lemma VerificationIsCaseSensitive()
    ensures IsVerifiedEmail("User@example.com", Answered(["user@example.com"])).result == Success(false)
    ensures IsVerifiedEmail("user@example.com", Answered(["user@example.com"])).result == Success(true)
  {
    AcceptsPlainAddress();
    AcceptsCapitalisedAddress();
    assert "User@example.com"[0] != "user@example.com"[0];
  }
}
