/**
 * The generator of WebSocketClient.generate: socket handlers put messages into a queue and wake a consumer that may be
 * asleep. Code between two suspension points runs without interruption, so a step is either one handler or one
 * resumption up to the next `await` or `yield`.
 */
module MessageGenerator {
  import opened Wrappers

  /** Where the consumer stands. A wait is resolved once a handler has called `resolveNext`. */
  datatype Position = NotStarted | Waiting(resolved: bool) | AtYield | Finished | Threw | Returned

  /** received and yielded record the history of a run. */
  datatype State<M> = State(
    queue: seq<M>,
    closed: bool,
    error: bool,
    position: Position,
    received: seq<M>,
    yielded: seq<M>)

  datatype Event<M> = Message(m: M) | Error | Close | Resume | Return

  function Initial<M>(): State<M> {
    State([], false, false, NotStarted, [], [])
  }

  function Wake(p: Position): Position {
    if p.Waiting? then Waiting(true) else p
  }

  predicate Terminal(p: Position) {
    p.Finished? || p.Threw? || p.Returned?
  }

  /** Start of the outer loop. */
  function Top<M>(s: State<M>): State<M> {
    if s.queue == [] then (if s.closed then s.(position := Finished) else s.(position := Waiting(false)))
    else AfterWait(s)
  }

  /** After the wait: a reported error is thrown. */
  function AfterWait<M>(s: State<M>): State<M> {
    if s.error then s.(position := Threw) else Drain(s)
  }

  /** The inner loop, and the test behind it. */
  function Drain<M>(s: State<M>): State<M> {
    if s.queue != [] then s.(queue := s.queue[1..], yielded := s.yielded + [s.queue[0]], position := AtYield)
    else if s.closed then s.(position := Finished)
    else s.(position := Waiting(false))
  }

  function Step<M>(s: State<M>, e: Event<M>): State<M> {
    match e
    case Message(m) => s.(queue := s.queue + [m], received := s.received + [m], position := Wake(s.position))
    case Error => s.(error := true, closed := true, position := Wake(s.position))
    case Close => s.(closed := true, position := Wake(s.position))
    case Resume =>
      (match s.position
       case NotStarted => Top(s)
       case Waiting(resolved) => if resolved then AfterWait(s) else s
       case AtYield => Drain(s)
       case _ => s)
    case Return => if s.position.AtYield? || s.position.NotStarted? then s.(position := Returned) else s
  }

  /** The socket is opened by the first resumption, and once closed it delivers no more messages. */
  predicate Possible<M>(s: State<M>, e: Event<M>) {
    (e.Message? ==> !s.closed) && (e.Message? || e.Error? || e.Close? ==> !s.position.NotStarted?)
  }

  ghost predicate Run<M>(s: State<M>, events: seq<Event<M>>, t: State<M>)
    decreases |events|
  {
    if events == [] then s == t else Possible(s, events[0]) && Run(Step(s, events[0]), events[1..], t)
  }

  // ---------- what every run keeps ----------

  ghost predicate Inv<M(!new)>(s: State<M>) {
    && s.received == s.yielded + s.queue
    && (s.error ==> s.closed)
    && (s.position.NotStarted? ==> s.queue == [] && !s.closed)
    && (s.position == Waiting(false) ==> s.queue == [] && !s.closed)
    && (s.position == Waiting(true) ==> s.queue != [] || s.closed)
    && (s.position.Finished? ==> s.closed && s.queue == [])
    && (s.position.Threw? ==> s.error)
  }

  lemma StepKeepsInv<M(!new)>(s: State<M>, e: Event<M>)
    requires Inv(s) && Possible(s, e)
    ensures Inv(Step(s, e))
  {
    match e
    case Message(m) => assert s.yielded + (s.queue + [m]) == s.yielded + s.queue + [m];
    case Resume =>
      if s.queue != [] {
        assert s.queue == [s.queue[0]] + s.queue[1..];
        assert s.yielded + s.queue == s.yielded + [s.queue[0]] + s.queue[1..];
      }
    case _ =>
  }

  /**
   * In every run nothing is lost or reordered: received is yielded followed by the queue; a consumer asleep on an
   * unresolved wait has nothing to do; and a normal end means that everything received was yielded.
   */
  lemma {:induction false} RunsKeepInv<M(!new)>(s: State<M>, events: seq<Event<M>>, t: State<M>)
    requires Inv(s) && Run(s, events, t)
    ensures Inv(t)
    ensures t.position.Finished? ==> t.yielded == t.received
    decreases |events|
  {
    if events != [] {
      StepKeepsInv(s, events[0]);
      RunsKeepInv(Step(s, events[0]), events[1..], t);
    }
  }

  /** The messages of a run in the order in which they arrive. */
  function Payloads<M>(events: seq<Event<M>>): seq<M> {
    if events == [] then []
    else if events[0].Message? then [events[0].m] + Payloads(events[1..])
    else Payloads(events[1..])
  }

  /** What a run records: every message that arrives, and whether the socket was closed or failed. */
  lemma {:induction false} RunsRecord<M(!new)>(s: State<M>, events: seq<Event<M>>, t: State<M>)
    requires Run(s, events, t)
    ensures t.received == s.received + Payloads(events)
    ensures t.closed <==> s.closed || Close in events || Error in events
    ensures t.error <==> s.error || Error in events
    decreases |events|
  {
    if events != [] {
      RunsRecord(Step(s, events[0]), events[1..], t);
      assert events == [events[0]] + events[1..];
    }
  }

  /**
   * Every run from the start: what was yielded is the messages that arrived, in order, except for those still queued;
   * the generator ends normally only after the socket was closed or failed, and then all of them were yielded.
   */
  lemma RunsFromStart<M(!new)>(events: seq<Event<M>>, t: State<M>)
    requires Run(Initial<M>(), events, t)
    ensures Inv(t) && t.yielded + t.queue == Payloads(events)
    ensures t.closed <==> Close in events || Error in events
    ensures t.error <==> Error in events
    ensures t.position.Finished? ==> (Close in events || Error in events) && t.yielded == Payloads(events)
    ensures t.position.Threw? ==> Error in events
  {
    RunsKeepInv(Initial<M>(), events, t);
    RunsRecord(Initial<M>(), events, t);
    assert [] + Payloads(events) == Payloads(events);
  }

  // ---------- ending ----------

  function Resumed<M>(s: State<M>, n: nat): State<M>
    decreases n
  {
    if n == 0 then s else Resumed(Step(s, Resume), n - 1)
  }

  /**
   * Once the socket is closed the consumer ends after at most one resumption per queued message and one more, having
   * yielded no more than what was queued; unless it throws, it has yielded all of it.
   */
  lemma {:induction false} EndsAfterClose<M(!new)>(s: State<M>, n: nat)
    requires Inv(s) && s.closed && n > |s.queue|
    ensures Terminal(Resumed(s, n).position)
    ensures |Resumed(s, n).yielded| <= |s.yielded| + |s.queue|
    ensures Resumed(s, n).position.Finished? && !s.position.Finished? ==> Resumed(s, n).yielded == s.yielded + s.queue
    decreases n
  {
    StepKeepsInv(s, Resume);
    if Terminal(s.position) {
      TerminalStays(s, n);
    } else {
      var t := Step(s, Resume);
      if Terminal(t.position) {
        TerminalStays(t, n - 1);
      } else {
        EndsAfterClose(t, n - 1);
        assert t.yielded + t.queue == s.yielded + s.queue;
      }
    }
  }

  lemma {:induction false} TerminalStays<M>(s: State<M>, n: nat)
    requires Terminal(s.position)
    ensures Resumed(s, n) == s
    decreases n
  {
    if n > 0 {
      TerminalStays(s, n - 1);
    }
  }

  /**
   * Whether an error reaches the consumer depends on where it stands when the error is reported: asleep, it throws (and
   * drops what is queued); with a message in hand, it goes on to a normal end.
   */
  lemma {:induction false} ErrorThrownIffAsleep<M(!new)>(s: State<M>, n: nat)
    requires Inv(s) && !s.closed && !Terminal(s.position) && Possible(s, Error) && n > |s.queue|
    ensures Resumed(Step(s, Error), n).position == if s.position.Waiting? then Threw else Finished
  {
    var t := Step(s, Error);
    StepKeepsInv(s, Error);
    if s.position.AtYield? {
      DrainsToEnd(t, n);
    } else {
      TerminalStays(Step(t, Resume), n - 1);
    }
  }

  lemma {:induction false} DrainsToEnd<M(!new)>(s: State<M>, n: nat)
    requires s.closed && s.position.AtYield? && n > |s.queue|
    ensures Resumed(s, n).position.Finished?
    decreases n
  {
    var t := Step(s, Resume);
    if t.position.AtYield? {
      DrainsToEnd(t, n - 1);
    } else {
      TerminalStays(t, n - 1);
    }
  }

  /** A generator that has ended yields nothing any more, whatever still arrives. */
  lemma {:induction false} EndedStays<M>(s: State<M>, events: seq<Event<M>>, t: State<M>)
    requires Terminal(s.position) && Run(s, events, t)
    ensures t.position == s.position && t.yielded == s.yielded
    decreases |events|
  {
    if events != [] {
      EndedStays(Step(s, events[0]), events[1..], t);
    }
  }

  /** A consumer that returns with a message in hand, or before it has asked for one, gets nothing more. */
  lemma ReturnEnds<M>(s: State<M>, events: seq<Event<M>>, t: State<M>)
    requires (s.position.AtYield? || s.position.NotStarted?) && Run(s, [Return] + events, t)
    ensures t.position.Returned? && t.yielded == s.yielded
  {
    assert ([Return] + events)[1..] == events;
    EndedStays(Step(s, Return), events, t);
  }

  // ---------- the shared variables ----------

  class Generator<M> {
    var messageQueue: seq<M>
    var isClosed: bool
    var streamError: bool
    var position: Position
    ghost var received: seq<M>
    ghost var yielded: seq<M>

    constructor ()
      ensures Abstract() == Initial()
    {
      messageQueue, isClosed, streamError, position := [], false, false, NotStarted;
      received, yielded := [], [];
    }

    ghost function Abstract(): State<M>
      reads this
    {
      State(messageQueue, isClosed, streamError, position, received, yielded)
    }

    method ResolveNext()
      modifies this`position
      ensures Abstract() == old(Abstract()).(position := Wake(old(position)))
    {
      if position.Waiting? {
        position := Waiting(true);
      }
    }

    method OnMessage(m: M)
      modifies this
      ensures Abstract() == Step(old(Abstract()), Message(m))
      ensures messageQueue == old(messageQueue) + [m] && received == old(received) + [m]
      ensures position == if old(position) == Waiting(false) then Waiting(true) else old(position)
      ensures isClosed == old(isClosed) && streamError == old(streamError) && yielded == old(yielded)
    {
      messageQueue := messageQueue + [m];
      received := received + [m];
      ResolveNext();
    }

    method OnError()
      modifies this
      ensures Abstract() == Step(old(Abstract()), Error)
      ensures streamError && isClosed && messageQueue == old(messageQueue)
      ensures position == if old(position) == Waiting(false) then Waiting(true) else old(position)
      ensures received == old(received) && yielded == old(yielded)
    {
      streamError := true;
      isClosed := true;
      ResolveNext();
    }

    method OnClose()
      modifies this
      ensures Abstract() == Step(old(Abstract()), Close)
      ensures isClosed && streamError == old(streamError) && messageQueue == old(messageQueue)
      ensures position == if old(position) == Waiting(false) then Waiting(true) else old(position)
      ensures received == old(received) && yielded == old(yielded)
    {
      isClosed := true;
      ResolveNext();
    }

    /** Runs the generator from where it stands to its next suspension; a yielded message is handed out. */
    method Next() returns (out: Option<M>)
      modifies this
      ensures Abstract() == Step(old(Abstract()), Resume)
      ensures out.Some? <==>
        old(messageQueue) != [] && !Terminal(old(position)) && old(position) != Waiting(false)
          && (old(position).AtYield? || !old(streamError))
      ensures out.None? ==> yielded == old(yielded)
      ensures out.Some? ==>
        old(messageQueue) != [] && out.value == old(messageQueue)[0] && yielded == old(yielded) + [out.value]
    {
      out := None;
      if Terminal(position) || position == Waiting(false) {
        return;
      }
      if position.NotStarted? && |messageQueue| == 0 {
        position := if isClosed then Finished else Waiting(false);
        return;
      }
      if !position.AtYield? && streamError {
        position := Threw;
        return;
      }
      if |messageQueue| > 0 {
        out := Some(messageQueue[0]);
        yielded := yielded + [messageQueue[0]];
        messageQueue := messageQueue[1..];
        position := AtYield;
      } else {
        position := if isClosed then Finished else Waiting(false);
      }
    }
  }
}
