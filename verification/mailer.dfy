/**
 * The extension mailer and its digest queue table, as the mailer's unit
 * tests fix them: a message is either delivered at once or, when the
 * sender prefers digests, stored as a `queued` row; a digest run delivers
 * every `queued` row and flips it to `sent`.
 */
module Messaging {
  import opened Php

  /** Width of the queue table's status field. */
  const StatusFieldLength: nat := 10

  datatype Status = Queued | Sent | Invalid

  /** The STATUS_* constants: the text each status is stored as. */
  function StatusCode(s: Status): (code: string)
    ensures 0 < |code| <= StatusFieldLength
    ensures s == Invalid <==> code == "invalid"
  {
    match s
    case Queued => "queued"
    case Sent => "sent"
    case Invalid => "invalid"
  }

  /** Reads a stored status field back. */
  function ParseStatus(code: string): (r: Option<Status>)
    ensures r.Some? ==> StatusCode(r.value) == code
  {
    if code == "queued" then Some(Queued)
    else if code == "sent" then Some(Sent)
    else if code == "invalid" then Some(Invalid)
    else None
  }

  /** Every status survives a trip through the status field. */
  lemma StatusCodeRoundTrip(s: Status)
    ensures ParseStatus(StatusCode(s)) == Some(s)
  {
  }

  /** The status a row gets when none is given; only tests ever rely on it. */
  const DefaultStatus: Status := Invalid

  /** One row of the digest queue table. */
  datatype QueueEntry = QueueEntry(
    id: nat,
    status: Status,
    added: int,
    userto: nat,
    sentid: Option<nat>,
    headers: string,
    subject: string,
    contents: string)

  /** A message built by create_message, not yet sent. */
  datatype Message = Message(userto: nat, headers: string, subject: string, body: string)

  /** A message as the mail transport receives it. */
  datatype Mail = Mail(userto: nat, subject: string, fullmessage: string)

  /** The mail that delivers a queued row. */
  function MailOf(e: QueueEntry): Mail {
    Mail(e.userto, e.subject, e.contents)
  }

  /** What one digest run delivers from the table q: one mail per queued row, in table order. */
  function DigestMails(q: seq<QueueEntry>): (mails: seq<Mail>)
    ensures |mails| <= |q|
  {
    if q == [] then []
    else
      var last := q[|q| - 1];
      DigestMails(q[..|q| - 1]) + (if last.status == Queued then [MailOf(last)] else [])
  }

  /** A row after a digest run: a queued row is now sent, any other row is untouched. */
  function MarkSent(e: QueueEntry): QueueEntry {
    if e.status == Queued then e.(status := Sent) else e
  }

  /** The table after a digest run. */
  function AfterDigest(q: seq<QueueEntry>): (r: seq<QueueEntry>)
    ensures |r| == |q|
    ensures forall i :: 0 <= i < |q| ==> r[i] == MarkSent(q[i])
  {
    seq(|q|, i requires 0 <= i < |q| => MarkSent(q[i]))
  }

  /** A digest run delivers every queued row, and only queued rows. */
  lemma {:induction false} DigestMailsExactlyQueued(q: seq<QueueEntry>)
    ensures forall i :: 0 <= i < |q| && q[i].status == Queued ==> MailOf(q[i]) in DigestMails(q)
    ensures forall m :: m in DigestMails(q) ==>
              exists i :: 0 <= i < |q| && q[i].status == Queued && m == MailOf(q[i])
  {
    if q != [] {
      var front := q[..|q| - 1];
      DigestMailsExactlyQueued(front);
      forall m | m in DigestMails(q)
        ensures exists i :: 0 <= i < |q| && q[i].status == Queued && m == MailOf(q[i])
      {
        if m in DigestMails(front) {
          var i :| 0 <= i < |front| && front[i].status == Queued && m == MailOf(front[i]);
          assert q[i] == front[i];
        } else {
          assert q[|q| - 1].status == Queued && m == MailOf(q[|q| - 1]);
        }
      }
      forall i | 0 <= i < |q| && q[i].status == Queued
        ensures MailOf(q[i]) in DigestMails(q)
      {
        if i < |q| - 1 {
          assert front[i] == q[i];
        }
      }
    }
  }

  /** Rows whose status is invalid or sent are never delivered. */
  lemma {:induction false} NothingQueuedNothingDelivered(q: seq<QueueEntry>)
    requires forall i :: 0 <= i < |q| ==> q[i].status != Queued
    ensures DigestMails(q) == []
  {
    if q != [] {
      NothingQueuedNothingDelivered(q[..|q| - 1]);
    }
  }

  /** A row delivered by one digest run is not delivered again by the next. */
  lemma DigestNotRepeated(q: seq<QueueEntry>)
    ensures DigestMails(AfterDigest(q)) == []
  {
    NothingQueuedNothingDelivered(AfterDigest(q));
  }

  /** The plugin's emaildisable setting, as configuration may hold it. */
  datatype Setting = NotSet | BoolSetting(b: bool) | StringSetting(s: string)

  /** PHP truthiness of a setting. */
  predicate Truthy(v: Setting) {
    match v
    case NotSet => false
    case BoolSetting(b) => b
    case StringSetting(s) => !EmptyString(s)
  }

  /** is_enabled: mail goes out unless emaildisable is set to a true value. */
  function IsEnabled(emaildisable: Setting): (enabled: bool)
    ensures emaildisable == NotSet ==> enabled
    ensures emaildisable == BoolSetting(false) ==> enabled
    ensures emaildisable == StringSetting("0") ==> enabled
    ensures emaildisable == BoolSetting(true) ==> !enabled
    ensures emaildisable == StringSetting("1") ==> !enabled
  {
    !Truthy(emaildisable)
  }

  /** Row ids of table q are below nextId and increase in table order. */
  ghost predicate IdsFresh(q: seq<QueueEntry>, nextId: nat) {
    && (forall i :: 0 <= i < |q| ==> q[i].id < nextId)
    && (forall i, j :: 0 <= i < j < |q| ==> q[i].id < q[j].id)
  }

  /** A digest run keeps every row's id. */
  lemma DigestKeepsIds(q: seq<QueueEntry>, nextId: nat)
    requires IdsFresh(q, nextId)
    ensures IdsFresh(AfterDigest(q), nextId)
  {
    var r := AfterDigest(q);
    assert forall i :: 0 <= i < |q| ==> r[i].id == q[i].id;
  }

  /** The mailer with the digest queue table it writes to. */
  class Mailer {
    /** The single time the mailer stamps queued rows with. */
    var time: int
    /** Rows of the digest queue table, in insertion order. */
    var queue: seq<QueueEntry>
    /** The id the table gives the next inserted row. */
    var nextId: nat

    /** Row ids are fresh and increase in insertion order. */
    ghost predicate Valid()
      reads this
    {
      IdsFresh(queue, nextId)
    }

    /** A new mailer over an empty table; it reads the clock once. */
    constructor (now: int)
      ensures Valid()
      ensures time == now && queue == []
    {
      time := now;
      queue := [];
      nextId := 1;
    }

    method GetTime() returns (t: int)
      ensures t == time
    {
      t := time;
    }

    method SetTime(t: int)
      modifies this`time
      ensures time == t
    {
      time := t;
    }

    /**
     * Inserts a row into the digest queue table; sentid starts out null,
     * and a row inserted without a status gets the table's default.
     */
    method InsertRecord(status: Option<Status>, added: int, userto: nat, headers: string, subject: string, contents: string)
      returns (id: nat)
      requires Valid()
      modifies this`queue, this`nextId
      ensures Valid()
      ensures id == old(nextId)
      ensures forall i :: 0 <= i < |old(queue)| ==> old(queue)[i].id != id
      ensures queue == old(queue) + [QueueEntry(id, if status.Some? then status.value else DefaultStatus,
                                                added, userto, None, headers, subject, contents)]
      ensures status.None? ==> StatusCode(queue[|queue| - 1].status) == "invalid"
    {
      id := nextId;
      var stored := if status.Some? then status.value else DefaultStatus;
      queue := queue + [QueueEntry(id, stored, added, userto, None, headers, subject, contents)];
      nextId := nextId + 1;
    }

    /** Stores a message for a later digest run, stamped with the mailer's time. */
    method Enqueue(m: Message) returns (id: nat)
      requires Valid()
      modifies this`queue, this`nextId
      ensures Valid()
      ensures forall i :: 0 <= i < |old(queue)| ==> old(queue)[i].id != id
      ensures queue == old(queue) + [QueueEntry(id, Queued, time, m.userto, None, m.headers, m.subject, m.body)]
    {
      id := InsertRecord(Some(Queued), time, m.userto, m.headers, m.subject, m.body);
    }

    /**
     * Sends a message: delivered at once without the digest preference,
     * queued and not delivered with it.
     */
    method Send(m: Message, digestPreference: bool) returns (delivered: seq<Mail>)
      requires Valid()
      modifies this`queue, this`nextId
      ensures Valid()
      ensures !digestPreference ==> delivered == [Mail(m.userto, m.subject, m.body)] && queue == old(queue)
      ensures digestPreference ==> delivered == []
      ensures digestPreference ==>
                exists id :: queue == old(queue) + [QueueEntry(id, Queued, time, m.userto, None, m.headers, m.subject, m.body)]
    {
      if digestPreference {
        var id := Enqueue(m);
        delivered := [];
      } else {
        delivered := [Mail(m.userto, m.subject, m.body)];
      }
    }

    /** email_digest_send: delivers every queued row and marks it sent, row by row. */
    method DigestSend() returns (delivered: seq<Mail>)
      requires Valid()
      modifies this`queue
      ensures Valid()
      ensures delivered == DigestMails(old(queue))
      ensures queue == AfterDigest(old(queue))
    {
      var rows := queue;
      DigestKeepsIds(rows, nextId);
      delivered := [];
      var i := 0;
      while i < |rows|
        invariant 0 <= i <= |rows|
        invariant queue == DigestedUpTo(rows, i)
        invariant delivered == DigestMails(rows[..i])
      {
        var entry := rows[i];
        DigestMailsStep(rows, i);
        DigestedStep(rows, i);
        if entry.status == Queued {
          delivered := delivered + [MailOf(entry)];
          queue := queue[i := entry.(status := Sent)];
        }
        i := i + 1;
      }
      assert rows[..i] == rows;
      DigestedAll(rows);
    }
  }

  /** The table part-way through a digest run: the first i rows are marked sent. */
  function DigestedUpTo(q: seq<QueueEntry>, i: nat): (r: seq<QueueEntry>)
    ensures |r| == |q|
  {
    seq(|q|, k requires 0 <= k < |q| => if k < i then MarkSent(q[k]) else q[k])
  }

  /** Marking row i sent moves the run on by one row; a row that is not queued needs no write. */
  lemma DigestedStep(q: seq<QueueEntry>, i: nat)
    requires i < |q|
    ensures DigestedUpTo(q, i)[i := MarkSent(q[i])] == DigestedUpTo(q, i + 1)
    ensures q[i].status != Queued ==> DigestedUpTo(q, i) == DigestedUpTo(q, i + 1)
  {
    assert DigestedUpTo(q, i)[i := MarkSent(q[i])] == DigestedUpTo(q, i + 1);
  }

  /** A run that has passed every row leaves the table as AfterDigest says. */
  lemma DigestedAll(q: seq<QueueEntry>)
    ensures DigestedUpTo(q, |q|) == AfterDigest(q)
  {
  }

  /** Delivering one more row of the table adds its mail when it is queued. */
  lemma DigestMailsStep(q: seq<QueueEntry>, i: nat)
    requires i < |q|
    ensures DigestMails(q[..i + 1]) == DigestMails(q[..i]) + (if q[i].status == Queued then [MailOf(q[i])] else [])
  {
    assert q[..i + 1][..i] == q[..i];
  }

  /** The digest-mode tests replayed against the contracts above. */
  method DigestModeScenario(recipient: nat) {
    var mailer := new Mailer(0);
    mailer.SetTime(1234567890);
    var sent := mailer.Send(Message(recipient, "", "Hello", "World"), true);
    assert sent == [];
    assert |mailer.queue| == 1;
    var row := mailer.queue[0];
    assert row.status == Queued && row.added == 1234567890 && row.sentid == None;
    assert row.userto == recipient && row.subject == "Hello" && row.contents == "World";

    var digest := mailer.DigestSend();
    assert digest == [Mail(recipient, "Hello", "World")];
    assert mailer.queue[0].status == Sent;

    var again := mailer.DigestSend();
    DigestNotRepeated([row]);
    assert again == [];
  }
}
