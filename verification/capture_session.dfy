/** One SMTP conversation as the capture backend sees it (src/smtp.go,
    `Session`). The protocol framing is the library's; these are the
    callbacks it makes for MAIL, RCPT, DATA and RSET (sections 4.1.1.2,
    4.1.1.3, 4.1.1.4 and 4.1.1.5 of RFC 5321). The store, the arrival queue,
    the clock string and the random draws are explicit inputs and outputs. */
module Capture {
  import opened Wrappers
  import opened Types
  import opened Smtp
  import opened Database

  /** The per-connection state: envelope sender, the one recipient kept, and
      the message text received so far. */
  datatype Session = Session(from: string, to: string, body: string)

  /** A session as NewSession creates it. */
  const Empty := Session("", "", "")

  // ---------------------------------------------------------------------------
  // Envelope callbacks
  // ---------------------------------------------------------------------------

  /** MAIL FROM: records the sender and touches nothing else. */
  function Mail(s: Session, from: string): (r: Session)
    ensures r.from == from
    ensures r.to == s.to && r.body == s.body
  {
    s.(from := from)
  }

  /** RCPT TO: records the recipient, replacing any earlier one. */
  function Rcpt(s: Session, to: string): (r: Session)
    ensures r.to == to
    ensures r.from == s.from && r.body == s.body
  {
    s.(to := to)
  }

  /** RSET: clears sender, recipient and body. */
  function Reset(s: Session): (r: Session)
    ensures r.from == "" && r.to == "" && r.body == ""
  {
    Empty
  }

  /** QUIT: nothing to release; never an error. */
  function Logout(s: Session): (r: Option<string>)
    ensures r.None?
  {
    None
  }

  /** A run of RCPT commands, in order. */
  function RcptAll(s: Session, recipients: seq<string>): Session
    decreases |recipients|
  {
    if |recipients| == 0 then s
    else RcptAll(Rcpt(s, recipients[0]), recipients[1..])
  }

  /** Several recipients: only the last survives, and nothing else moves. */
  lemma {:induction false} RcptKeepsLast(s: Session, recipients: seq<string>)
    requires |recipients| > 0
    ensures RcptAll(s, recipients) == s.(to := recipients[|recipients| - 1])
    decreases |recipients|
  {
    if |recipients| > 1 {
      RcptKeepsLast(Rcpt(s, recipients[0]), recipients[1..]);
    }
  }

  /** RSET twice is RSET once, and a reset session is the fresh one. */
  lemma ResetIdempotent(s: Session)
    ensures Reset(Reset(s)) == Reset(s)
    ensures Reset(s) == Empty
  {
  }

  // ---------------------------------------------------------------------------
  // Arrival queue
  // ---------------------------------------------------------------------------

  /** The capacity of the arrival channel main creates. */
  const NotifyCapacity := 100

  /** The arrival channel: absent (a nil channel), or a buffered channel
      holding `pending` tokens out of `capacity`. */
  datatype Notifier = Detached | Channel(pending: nat, capacity: nat)

  predicate Bounded(n: Notifier) {
    n.Channel? ==> n.pending <= n.capacity
  }

  /** The channel main hands to the server: empty, capacity 100. */
  const Arrivals := Channel(0, NotifyCapacity)

  /** The non-blocking send: one token when there is room, otherwise the
      token is dropped; a nil channel is skipped. */
  function Notify(n: Notifier): (r: Notifier)
    ensures n.Detached? ==> r == n
    ensures n.Channel? ==> r.Channel? && r.capacity == n.capacity
    ensures n.Channel? && n.pending < n.capacity ==> r.pending == n.pending + 1
    ensures n.Channel? && n.pending >= n.capacity ==> r == n
    ensures Bounded(n) ==> Bounded(r)
  {
    match n
    case Detached => n
    case Channel(pending, capacity) =>
      if pending < capacity then Channel(pending + 1, capacity) else n
  }

  /** `k` sends with nobody draining the channel. */
  function NotifyTimes(n: Notifier, k: nat): Notifier {
    if k == 0 then n else Notify(NotifyTimes(n, k - 1))
  }

  /** However many messages arrive, the queue saturates at its capacity and
      never blocks the session. */
  lemma {:induction false} NotifySaturates(n: Notifier, k: nat)
    requires n.Channel? && n.pending <= n.capacity
    ensures NotifyTimes(n, k).Channel? && NotifyTimes(n, k).capacity == n.capacity
    ensures NotifyTimes(n, k).pending ==
      if n.pending + k <= n.capacity then n.pending + k else n.capacity
  {
    if k > 0 {
      NotifySaturates(n, k - 1);
    }
  }

  // ---------------------------------------------------------------------------
  // DATA
  // ---------------------------------------------------------------------------

  /** The message stream as io.Copy sees it: the bytes that were read, and
      the read error that ended the copy early, if any. */
  datatype Stream = Stream(data: string, failure: Option<string>)

  datatype DataError =
    | ReadFailed(reason: string)   // the error io.Copy returned
    | SaveFailed(id: string)       // the insert was refused

  /** Everything a DATA callback changes, plus what it returns. */
  datatype DataOutcome = DataOutcome(
    session: Session,
    store: Store,
    notifier: Notifier,
    err: Option<DataError>)

  /** The record DATA builds from the session once the text is complete. */
  function Captured(s: Session, body: string, draws: seq<nat>, date: string): (e: Email)
    requires ValidDraws(draws)
    ensures e.id == GenerateId(draws) && e.from == s.from && e.to == s.to
    ensures e.body == body && e.date == date && e.headers == map[]
    ensures e.subject == ExtractSubject(body)
  {
    Email(GenerateId(draws), s.from, s.to, ExtractSubject(body), body, date, map[])
  }

  /** Session.Data as written. The stream is appended to the body whether or
      not the copy fails. A failed copy is returned before anything is saved
      or announced. Otherwise the record is inserted, the outcome of the
      insert is dropped, one arrival is announced and DATA succeeds. */
  function Data(s: Session, store: Store, n: Notifier, stream: Stream,
                draws: seq<nat>, date: string, now: int): (r: DataOutcome)
    requires ValidDraws(draws)
    ensures r.session == s.(body := s.body + stream.data)
    ensures r.err.Some? <==> stream.failure.Some?
    ensures stream.failure.Some? ==>
      r.err == Some(ReadFailed(stream.failure.value)) && r.store == store && r.notifier == n
    ensures stream.failure.None? ==> r.notifier == Notify(n)
    ensures stream.failure.None? && GetEmailByID(store, GenerateId(draws)).Failure? ==>
      GetEmailByID(r.store, GenerateId(draws)) ==
        Success(Captured(s, s.body + stream.data, draws, date)) &&
      CountEmails(r.store) == CountEmails(store) + 1
    ensures stream.failure.None? && GetEmailByID(store, GenerateId(draws)).Success? ==>
      r.store == store
    ensures forall id | id != GenerateId(draws) :: GetEmailByID(r.store, id) == GetEmailByID(store, id)
    ensures Valid(store) ==> Valid(r.store)
  {
    var body := s.body + stream.data;
    var next := s.(body := body);
    match stream.failure
    case Some(reason) => DataOutcome(next, store, n, Some(ReadFailed(reason)))
    case None =>
      var saved := SaveEmail(store, Captured(s, body, draws, date), now);
      var store' := if saved.Success? then saved.value else store;
      DataOutcome(next, store', Notify(n), None)
  }

  /** As written, a colliding identifier loses the message while DATA still
      reports success and still announces an arrival. */
  lemma DataSwallowsSaveError(s: Session, store: Store, n: Notifier, stream: Stream,
                              draws: seq<nat>, date: string, now: int)
    requires ValidDraws(draws) && stream.failure.None?
    requires GetEmailByID(store, GenerateId(draws)).Success?
    ensures Data(s, store, n, stream, draws, date, now).err.None?
    ensures Data(s, store, n, stream, draws, date, now).store == store
    ensures Data(s, store, n, stream, draws, date, now).notifier == Notify(n)
  {
  }

  /** Session.Data with the insert's error returned: no success is reported
      and no arrival is announced for a message that was not stored. */
  function DataChecked(s: Session, store: Store, n: Notifier, stream: Stream,
                       draws: seq<nat>, date: string, now: int): (r: DataOutcome)
    requires ValidDraws(draws)
    ensures r.session == s.(body := s.body + stream.data)
    ensures stream.failure.Some? ==> r.err == Some(ReadFailed(stream.failure.value))
    ensures r.err.Some? ==> r.store == store && r.notifier == n
    ensures r.err.None? ==> r.notifier == Notify(n)
  {
    var body := s.body + stream.data;
    var next := s.(body := body);
    match stream.failure
    case Some(reason) => DataOutcome(next, store, n, Some(ReadFailed(reason)))
    case None =>
      var e := Captured(s, body, draws, date);
      match SaveEmail(store, e, now)
      case Success(store') => DataOutcome(next, store', Notify(n), None)
      case Failure(_) => DataOutcome(next, store, n, Some(SaveFailed(e.id)))
  }

  /** With the error returned, success means exactly that the complete
      message is now in the store, readable under its fresh identifier. */
  lemma DataCheckedStores(s: Session, store: Store, n: Notifier, stream: Stream,
                          draws: seq<nat>, date: string, now: int)
    requires ValidDraws(draws)
    ensures DataChecked(s, store, n, stream, draws, date, now).err.None? <==>
      stream.failure.None? && GetEmailByID(store, GenerateId(draws)).Failure?
    ensures DataChecked(s, store, n, stream, draws, date, now).err.None? ==>
      GetEmailByID(DataChecked(s, store, n, stream, draws, date, now).store, GenerateId(draws)) ==
        Success(Captured(s, s.body + stream.data, draws, date)) &&
      CountEmails(DataChecked(s, store, n, stream, draws, date, now).store) ==
        CountEmails(store) + 1
    ensures forall id | id != GenerateId(draws) ::
      GetEmailByID(DataChecked(s, store, n, stream, draws, date, now).store, id) ==
        GetEmailByID(store, id)
    ensures Valid(store) ==> Valid(DataChecked(s, store, n, stream, draws, date, now).store)
  {
  }

  /** The two agree whenever the insert goes through. */
  lemma DataCheckedAgrees(s: Session, store: Store, n: Notifier, stream: Stream,
                          draws: seq<nat>, date: string, now: int)
    requires ValidDraws(draws)
    requires stream.failure.Some? || GetEmailByID(store, GenerateId(draws)).Failure?
    ensures DataChecked(s, store, n, stream, draws, date, now) ==
      Data(s, store, n, stream, draws, date, now)
  {
  }

  /** The session is not cleared after DATA: without an RSET in between, a
      second message's text starts with the first one's. */
  lemma DataKeepsBody(s: Session, store: Store, n: Notifier, first: Stream, second: Stream,
                      draws: seq<nat>, date: string, now: int)
    requires ValidDraws(draws)
    ensures var r1 := Data(s, store, n, first, draws, date, now);
      var r2 := Data(r1.session, r1.store, r1.notifier, second, draws, date, now);
      r2.session.body == s.body + first.data + second.data
  {
  }
}
