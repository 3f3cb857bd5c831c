/**
 * The state change page of an extension request: who may open it, and
 * what a submitted state change does to the request, in order.
 */
module StatePage {
  import opened Php

  /** A user's access to a request's course module, as the rules grant it. */
  datatype Access = ActionApprove | ActionSubscribe | ActionForceApprove | NoAccess

  /**
   * The gate in front of the page: a user holding the view-all-requests
   * capability always passes; anyone else must belong to the request and
   * hold approve or force-approve access.
   */
  function MayChangeState(canViewAll: bool, userid: nat, users: set<nat>, access: Access): (allowed: bool)
    ensures canViewAll ==> allowed
    ensures !canViewAll && userid !in users ==> !allowed
    ensures !canViewAll && userid in users ==>
              (allowed <==> access == ActionApprove || access == ActionForceApprove)
  {
    if canViewAll then true
    else if userid in users then
      !(access != ActionApprove && access != ActionForceApprove)
    else false
  }

  /** A subscriber of a request can watch it but never change its state through this page. */
  lemma SubscriberIsTurnedAway(canViewAll: bool, userid: nat, users: set<nat>)
    requires !canViewAll
    ensures !MayChangeState(canViewAll, userid, users, ActionSubscribe)
    ensures !MayChangeState(canViewAll, userid, users, NoAccess)
  {
  }

  /** What a state update or a new comment hands to the subscribers. */
  datatype Notice = Notice(text: string)

  /** array_filter with a not-null callback: the present values, in order. */
  function DropNulls(xs: seq<Option<Notice>>): (ys: seq<Notice>)
    ensures |ys| <= |xs|
    ensures forall y :: y in ys <==> Some(y) in xs
  {
    if xs == [] then []
    else
      var rest := DropNulls(xs[1..]);
      assert forall x :: x in xs[1..] ==> x in xs;
      if xs[0].Some? then [xs[0].value] + rest else rest
  }

  /** Filtering a concatenation filters each part. */
  lemma {:induction false} DropNullsConcat(xs: seq<Option<Notice>>, ys: seq<Option<Notice>>)
    ensures DropNulls(xs + ys) == DropNulls(xs) + DropNulls(ys)
  {
    if xs != [] {
      assert (xs + ys)[1..] == xs[1..] + ys;
      DropNullsConcat(xs[1..], ys);
    } else {
      assert xs + ys == ys;
    }
  }

  /**
   * The notices a submitted state change sends: the state update's, then
   * the comment's when a comment was written, leaving out nulls.
   */
  function NotifyContent(stateResult: Option<Notice>, comment: string, commentResult: Option<Notice>): (notices: seq<Notice>)
    ensures notices ==
              (if stateResult.Some? then [stateResult.value] else [])
              + (if !EmptyString(comment) && commentResult.Some? then [commentResult.value] else [])
  {
    var rest := if !EmptyString(comment) then [commentResult] else [];
    DropNullsConcat([stateResult], rest);
    assert [stateResult][1..] == [] && (rest != [] ==> rest[1..] == []);
    DropNulls([stateResult] + rest)
  }

  /** What notify_subscribers was handed, and by whom. */
  datatype Notification = Notification(contents: seq<Notice>, from: nat)

  /** The effects of a submitted state change, as they happen. */
  datatype Step =
    | Notified(contents: seq<Notice>, from: nat)
    | LastmodUpdated(userid: nat, time: int)
    | CacheDeleted(requestid: nat)

  /** The page's effects on the request and its cache, oldest first. */
  class EffectLog {
    var steps: seq<Step>

    constructor ()
      ensures steps == []
    {
      steps := [];
    }

    method Record(step: Step)
      modifies this
      ensures steps == old(steps) + [step]
    {
      steps := steps + [step];
    }
  }

  /** A cached extension request as the page loads it. */
  class Request {
    const requestid: nat
    /** Users associated with the request: the requester and its subscribers. */
    var users: set<nat>
    var lastmod: int
    var lastmodid: nat
    /** Notifications sent to the subscribers, oldest first. */
    var notifications: seq<Notification>

    constructor (id: nat, users: set<nat>, lastmod: int, lastmodid: nat)
      ensures requestid == id && this.users == users
      ensures this.lastmod == lastmod && this.lastmodid == lastmodid && notifications == []
    {
      requestid := id;
      this.users := users;
      this.lastmod := lastmod;
      this.lastmodid := lastmodid;
      notifications := [];
    }

    /** notify_subscribers: one notification with the notices, from the acting user. */
    method NotifySubscribers(contents: seq<Notice>, from: nat, log: EffectLog)
      modifies this`notifications, log
      ensures notifications == old(notifications) + [Notification(contents, from)]
      ensures log.steps == old(log.steps) + [Notified(contents, from)]
    {
      notifications := notifications + [Notification(contents, from)];
      log.Record(Notified(contents, from));
    }

    /** update_lastmod: the request was last changed now, by userid. */
    method UpdateLastmod(userid: nat, now: int, log: EffectLog)
      modifies this`lastmod, this`lastmodid, log
      ensures lastmod == now && lastmodid == userid
      ensures log.steps == old(log.steps) + [LastmodUpdated(userid, now)]
    {
      lastmod := now;
      lastmodid := userid;
      log.Record(LastmodUpdated(userid, now));
    }
  }

  /** The request data cache, by request id. */
  class RequestCache {
    var entries: set<nat>

    constructor (entries: set<nat>)
      ensures this.entries == entries
    {
      this.entries := entries;
    }

    method Delete(requestid: nat, log: EffectLog)
      modifies this, log
      ensures entries == old(entries) - {requestid}
      ensures log.steps == old(log.steps) + [CacheDeleted(requestid)]
    {
      entries := entries - {requestid};
      log.Record(CacheDeleted(requestid));
    }
  }

  /**
   * A submitted state change: notify the subscribers, stamp lastmod, then
   * drop the request from the cache so it is rebuilt on the next read.
   * The log records the three effects in the order the calls made them.
   */
  method Submit(request: Request, cache: RequestCache, log: EffectLog, userid: nat, now: int,
                stateResult: Option<Notice>, comment: string, commentResult: Option<Notice>)
    modifies request`notifications, request`lastmod, request`lastmodid, cache, log
    ensures log.steps == old(log.steps)
                         + [Notified(NotifyContent(stateResult, comment, commentResult), userid),
                            LastmodUpdated(userid, now),
                            CacheDeleted(request.requestid)]
    ensures request.notifications ==
              old(request.notifications) + [Notification(NotifyContent(stateResult, comment, commentResult), userid)]
    ensures request.lastmod == now && request.lastmodid == userid
    ensures request.users == old(request.users)
    ensures cache.entries == old(cache.entries) - {request.requestid}
  {
    var notifycontent := [stateResult];
    if !EmptyString(comment) {
      notifycontent := notifycontent + [commentResult];
    }
    var contents := DropNulls(notifycontent);

    request.NotifySubscribers(contents, userid, log);
    request.UpdateLastmod(userid, now, log);
    cache.Delete(request.requestid, log);
  }

  /** The state form as the page finds it. */
  datatype Form =
    | Cancelled
    | Submitted(commentarea: string, submitStatus: bool, submitList: bool)
    | NotSubmitted

  datatype Outcome = InvalidAccess | RedirectToStatus | RedirectToIndex | ShowForm

  /**
   * The page: the access gate, then cancel (back to the status page,
   * nothing changed), submit (the sequence above, then a redirect when a
   * redirecting button was used) or display of the form.
   */
  method HandleStatePage(request: Request, cache: RequestCache, log: EffectLog, userid: nat, now: int,
                         canViewAll: bool, access: Access, form: Form,
                         stateResult: Option<Notice>, commentResult: Option<Notice>)
    returns (outcome: Outcome)
    modifies request`notifications, request`lastmod, request`lastmodid, cache, log
    ensures !MayChangeState(canViewAll, userid, request.users, access) ==>
              outcome == InvalidAccess && unchanged(request, cache, log)
    ensures MayChangeState(canViewAll, userid, request.users, access) && form.Cancelled? ==>
              outcome == RedirectToStatus && unchanged(request, cache, log)
    ensures MayChangeState(canViewAll, userid, request.users, access) && form.NotSubmitted? ==>
              outcome == ShowForm && unchanged(request, cache, log)
    ensures MayChangeState(canViewAll, userid, request.users, access) && form.Submitted? ==>
              && log.steps == old(log.steps)
                              + [Notified(NotifyContent(stateResult, form.commentarea, commentResult), userid),
                                 LastmodUpdated(userid, now),
                                 CacheDeleted(request.requestid)]
              && request.notifications == old(request.notifications)
                   + [Notification(NotifyContent(stateResult, form.commentarea, commentResult), userid)]
              && request.lastmod == now && request.lastmodid == userid
              && request.users == old(request.users)
              && cache.entries == old(cache.entries) - {request.requestid}
              && outcome == (if form.submitStatus then RedirectToStatus
                             else if form.submitList then RedirectToIndex
                             else ShowForm)
  {
    if !MayChangeState(canViewAll, userid, request.users, access) {
      return InvalidAccess;
    }
    match form
    case Cancelled =>
      outcome := RedirectToStatus;
    case Submitted(comment, submitStatus, submitList) =>
      Submit(request, cache, log, userid, now, stateResult, comment, commentResult);
      if submitStatus {
        outcome := RedirectToStatus;
      } else if submitList {
        outcome := RedirectToIndex;
      } else {
        outcome := ShowForm;
      }
    case NotSubmitted =>
      outcome := ShowForm;
  }
}
