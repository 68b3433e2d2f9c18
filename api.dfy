/**
 * The webhook the directory posts its events to (api/api.go). The handler answers the
 * directory's URL check, rejects requests that do not carry the verification token, and
 * puts every contact event on the queue of the handler that applies it.
 */
module Api {
  import opened Results
  import opened GoStrings
  import opened LarkModel

  const UrlVerification := "url_verification"
  const UserEventPrefix := "contact.user"
  const DepartmentEventPrefix := "contact.department"

  /**
   * The fields the handler reads from the JSON envelope; an absent field reads as "".
   * `userMsg` and `depMsg` are the body decoded as a user or as a department event, None
   * when that decoding fails.
   */
  datatype Envelope = Envelope(
    token: string,
    kind: string,
    challenge: string,
    eventType: string,
    userMsg: Option<ContactUserMsg>,
    depMsg: Option<ContactDepMsg>)

  /** The request body as the handler finds it. */
  datatype Body =
    | Unreadable              // reading the body failed
    | Malformed               // the body is not JSON
    | Json(envelope: Envelope)

  /** The response: a bare status, the challenge echoed as JSON, or nothing written. */
  datatype Reply = Status(code: int) | ChallengeEcho(code: int, challenge: string) | NothingWritten

  /** Which queue receives the message. */
  datatype Target = Nowhere | UserQueue(userMsg: ContactUserMsg) | DepartmentQueue(depMsg: ContactDepMsg)

  datatype Decision = Decision(reply: Reply, target: Target)

  /** Notifications' checks in their order, over the parsed request. */
  function Decide(body: Body, verificationToken: string): (d: Decision)
    ensures !d.target.Nowhere? ==>
              && d.reply == NothingWritten
              && body.Json? && body.envelope.token == verificationToken && body.envelope.kind != UrlVerification
    ensures d.target.UserQueue? ==> body.envelope.userMsg == Some(d.target.userMsg)
    ensures d.target.DepartmentQueue? ==> body.envelope.depMsg == Some(d.target.depMsg)
  {
    match body
    case Unreadable => Decision(Status(500), Nowhere)
    case Malformed => Decision(Status(400), Nowhere)
    case Json(e) =>
      if e.token != verificationToken then Decision(Status(400), Nowhere)
      else if e.kind == UrlVerification then Decision(ChallengeEcho(200, e.challenge), Nowhere)
      else if Contains(e.eventType, UserEventPrefix) then
        Decision(NothingWritten, if e.userMsg.Some? then UserQueue(e.userMsg.value) else Nowhere)
      else if Contains(e.eventType, DepartmentEventPrefix) then
        Decision(NothingWritten, if e.depMsg.Some? then DepartmentQueue(e.depMsg.value) else Nowhere)
      else Decision(Status(200), Nowhere)
  }

  /** The two queues the dispatcher drains, oldest message first. */
  class Channels {
    var userChan: seq<ContactUserMsg>
    var depChan: seq<ContactDepMsg>

    constructor ()
      ensures userChan == [] && depChan == []
    {
      userChan := [];
      depChan := [];
    }

    /** Notifications: answers the request and enqueues the event it carries, if any. */
    method Notifications(body: Body, verificationToken: string) returns (reply: Reply)
      modifies this
      ensures reply == Decide(body, verificationToken).reply
      ensures var t := Decide(body, verificationToken).target;
              && userChan == old(userChan) + (if t.UserQueue? then [t.userMsg] else [])
              && depChan == old(depChan) + (if t.DepartmentQueue? then [t.depMsg] else [])
    {
      if body.Unreadable? {
        return Status(500);
      }
      if body.Malformed? {
        return Status(400);
      }
      var sj := body.envelope;
      if sj.token != verificationToken {
        return Status(400);
      }
      if sj.kind == UrlVerification {
        return ChallengeEcho(200, sj.challenge);
      }
      var eventType := sj.eventType;
      if Contains(eventType, UserEventPrefix) {
        if sj.userMsg.None? {
          return NothingWritten;
        }
        userChan := userChan + [sj.userMsg.value];
        return NothingWritten;
      }
      if Contains(eventType, DepartmentEventPrefix) {
        if sj.depMsg.None? {
          return NothingWritten;
        }
        depChan := depChan + [sj.depMsg.value];
        return NothingWritten;
      }
      return Status(200);
    }
  }

  /** A request that cannot be read or parsed is refused and enqueues nothing. */
  lemma UnparsedIsRefused(verificationToken: string)
    ensures Decide(Unreadable, verificationToken) == Decision(Status(500), Nowhere)
    ensures Decide(Malformed, verificationToken) == Decision(Status(400), Nowhere)
  {
  }

  /** The token is checked before anything else, the URL check included. */
  lemma TokenCheckedFirst(e: Envelope, verificationToken: string)
    requires e.token != verificationToken
    ensures Decide(Json(e), verificationToken) == Decision(Status(400), Nowhere)
  {
  }

  /** The URL check is answered with its challenge and enqueues nothing, whatever its event type. */
  lemma ChallengeIsEchoed(e: Envelope, verificationToken: string)
    requires e.token == verificationToken && e.kind == UrlVerification
    ensures Decide(Json(e), verificationToken) == Decision(ChallengeEcho(200, e.challenge), Nowhere)
  {
  }

  /**
   * A message is enqueued only when it carries the token, is not a URL check and decodes,
   * and its queue follows the event type, the user queue winning when both prefixes occur.
   */
  lemma RoutingFollowsEventType(e: Envelope, verificationToken: string)
    ensures var d := Decide(Json(e), verificationToken);
            && (d.target.UserQueue? <==>
                  e.token == verificationToken && e.kind != UrlVerification &&
                  Contains(e.eventType, UserEventPrefix) && e.userMsg.Some?)
            && (d.target.DepartmentQueue? <==>
                  e.token == verificationToken && e.kind != UrlVerification &&
                  !Contains(e.eventType, UserEventPrefix) && Contains(e.eventType, DepartmentEventPrefix) &&
                  e.depMsg.Some?)
            && (d.target.UserQueue? ==> d.target.userMsg == e.userMsg.value)
            && (d.target.DepartmentQueue? ==> d.target.depMsg == e.depMsg.value)
            && (d.target != Nowhere ==> d.reply == NothingWritten)
  {
  }

  /** An event of no contact kind is acknowledged with 200 and dropped. */
  lemma OtherEventsAreAcknowledged(e: Envelope, verificationToken: string)
    requires e.token == verificationToken && e.kind != UrlVerification
    requires !Contains(e.eventType, UserEventPrefix) && !Contains(e.eventType, DepartmentEventPrefix)
    ensures Decide(Json(e), verificationToken) == Decision(Status(200), Nowhere)
  {
  }

  /** Each user event type the dispatcher handles reaches the user queue once decoded. */
  lemma UserEventsReachUserQueue(e: Envelope, verificationToken: string)
    requires e.token == verificationToken && e.kind != UrlVerification && e.userMsg.Some?
    requires e.eventType in {EventTypeUserCreate, EventTypeUserUpdate, EventTypeUserDelete}
    ensures Decide(Json(e), verificationToken).target == UserQueue(e.userMsg.value)
  {
    assert e.eventType == UserEventPrefix + e.eventType[|UserEventPrefix|..];
    ContainsPrefix(UserEventPrefix, e.eventType[|UserEventPrefix|..]);
  }

  /** The department event types do not contain the user prefix anywhere. */
  lemma NotUserEventAt(s: string, j: int)
    requires s in {EventTypeDepartmentCreate, EventTypeDepartmentUpdate, EventTypeDepartmentDelete}
    requires 0 <= j <= |s| - |UserEventPrefix|
    ensures !OccursAt(s, UserEventPrefix, j)
  {
    if s == EventTypeDepartmentUpdate && j == 11 {
      assert s[j..j + 12][0] != 'c';
    } else {
      assert s[j..j + 12][8] != 'u';
    }
  }

  /** Each department event type the dispatcher handles reaches the department queue once decoded. */
  lemma DepartmentEventsReachDepartmentQueue(e: Envelope, verificationToken: string)
    requires e.token == verificationToken && e.kind != UrlVerification && e.depMsg.Some?
    requires e.eventType in {EventTypeDepartmentCreate, EventTypeDepartmentUpdate, EventTypeDepartmentDelete}
    ensures Decide(Json(e), verificationToken).target == DepartmentQueue(e.depMsg.value)
  {
    forall j | 0 <= j <= |e.eventType| - |UserEventPrefix|
      ensures !OccursAt(e.eventType, UserEventPrefix, j)
    {
      NotUserEventAt(e.eventType, j);
    }
    assert e.eventType == DepartmentEventPrefix + e.eventType[|DepartmentEventPrefix|..];
    ContainsPrefix(DepartmentEventPrefix, e.eventType[|DepartmentEventPrefix|..]);
  }
}
