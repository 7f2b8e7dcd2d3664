/** All interleavings of the proxy's goroutines: the accept loop, one handler per connection, the goroutine
    that watches a handler's context, and the controller that switches engines, closes connections and
    shuts the proxy down.  One event is one lock section, or one operation on a connection, the listener or
    the wait group. */
module Interleaving {
  import opened Faults
  import opened ProxyState

  /** Where a handler is in `handleConn`. */
  datatype Phase =
    | Spawned          // not registered yet
    | Registered       // about to read the engine for the first time
    | Dialing
    | Looping          // about to look at the context
    | Reading          // about to read a command
    | Deciding         // has a command, about to read the engine
    | Forwarding       // decided to forward, nothing sent yet
    | Relaying         // sent upstream, about to read the reply and pass it on
    | Answering        // about to write a synthetic reply
    | Closing          // the deferred calls: close, unregister, leave the wait group
    | Unregistering
    | Finishing
  {
    predicate PastCheck() {
      Dialing? || Looping? || Reading? || Deciding? || Forwarding? || Relaying? || Answering?
    }

    /** The goroutine that watches the context has been started. */
    predicate Watched() {
      !Spawned? && !Registered? && !Dialing?
    }

    predicate IsRegistered() {
      !Spawned? && !Finishing?
    }
  }

  datatype Acceptor = NotStarted | Accepting | Accepted(conn: ConnId) | Added(conn: ConnId) | Exiting | Gone

  /** Where the controller is: between calls, or inside `Start`, `CloseAllConns` or `Shutdown`. */
  datatype Controller =
    | Idle
    | Listening                                        // Start: listener set, wait group not yet
    | Sweeping(todo: set<ConnId>, shutdown: bool)      // CloseAllConns: snapshot taken
    | Detached(hadListener: bool)                      // Shutdown: listener and cancel taken
    | Cancelled(hadListener: bool)                     // Shutdown: cancel called
    | ListenerClosed                                   // Shutdown: about to close the connections
    | Waiting                                          // Shutdown: in Wait

  /** How far a switch to the unavailable engine has come. */
  datatype Outage = Normal | Switched | Closed

  datatype State = State(
    shared: Shared,
    open: set<ConnId>,              // application connections not yet closed
    used: set<ConnId>,              // every connection ever accepted
    handlers: map<ConnId, Phase>,   // live handlers
    acceptor: Acceptor,
    controller: Controller,
    wg: int,                        // the wait group's counter
    abandoned: nat,                 // waiters that shutdowns which gave up have left in Wait
    listening: bool,                // the listener is open
    cancelled: bool,                // the run context
    stopped: bool,                  // history: Shutdown of the started proxy has returned nil
    outage: Outage,                 // history of the present outage
    exposed: set<ConnId>,           // history: handlers past their check when the outage began
    late: set<ConnId>,              // history: connections that forwarded a command since then
    twice: set<ConnId>,             // history: connections that forwarded more than one since then
    delivered: map<ConnId, nat>     // history: replies written to each connection
  )

  function Init(): State {
    State(Shared(PassThrough, {}, false), {}, {}, map[], NotStarted, Idle, 0, 0, false, false, false,
          Normal, {}, {}, {}, map[])
  }

  datatype Event =
    // controller
    | SetEngine(engine: Engine)
    | StartListening | StartAccepting
    | Snapshot | CloseOne(c: ConnId) | SweepDone
    | Detach | CallCancel | CloseListener | CloseListenerFails | GiveUp | WaitReturns
    // accept loop
    | Accept(c: ConnId) | AddHandler | Spawn | AcceptFails | LeaveAccept
    // a handler
    | Register(c: ConnId) | Check(c: ConnId) | Dial(c: ConnId, ok: bool)
    | LookAtContext(c: ConnId) | Read(c: ConnId, ok: bool) | Decide(c: ConnId, forward: bool)
    | Send(c: ConnId, ok: bool) | Relay(c: ConnId, ok: bool) | Answer(c: ConnId, ok: bool, goOn: bool)
    | CloseConn(c: ConnId) | Unregister(c: ConnId) | Finish(c: ConnId)
    // surroundings
    | ParentCancels | WatcherCloses(c: ConnId) | WaiterLeaves

  predicate At(s: State, c: ConnId, phase: Phase) {
    c in s.handlers && s.handlers[c] == phase
  }

  predicate Enabled(s: State, e: Event) {
    match e
    case SetEngine(_) => s.controller.Idle?
    case StartListening => s.controller.Idle? && s.acceptor.NotStarted? && !s.cancelled
    case StartAccepting => s.controller.Listening?
    case Snapshot => s.controller.Idle? || s.controller.ListenerClosed?
    case CloseOne(c) => s.controller.Sweeping? && c in s.controller.todo
    case SweepDone => s.controller.Sweeping? && s.controller.todo == {}
    case Detach => s.controller.Idle?
    case CallCancel => s.controller.Detached?
    case CloseListener => s.controller.Cancelled?
    case CloseListenerFails => s.controller.Cancelled? && s.controller.hadListener
    case GiveUp => s.controller.Waiting?
    case WaitReturns => s.controller.Waiting? && s.wg == 0
    case Accept(c) => s.acceptor.Accepting? && s.listening && c !in s.used
    case AddHandler => s.acceptor.Accepted?
    case Spawn => s.acceptor.Added?
    case AcceptFails => s.acceptor.Accepting? && (!s.listening || s.cancelled)
    case LeaveAccept => s.acceptor.Exiting?
    case Register(c) => At(s, c, Spawned)
    case Check(c) => At(s, c, Registered)
    case Dial(c, _) => At(s, c, Dialing)
    case LookAtContext(c) => At(s, c, Looping)
    case Read(c, _) => At(s, c, Reading)  // what is already buffered can be read even after a close
    case Decide(c, _) => At(s, c, Deciding)
    case Send(c, _) => At(s, c, Forwarding)
    case Relay(c, ok) => At(s, c, Relaying) && (ok ==> c in s.open)
    case Answer(c, ok, goOn) => At(s, c, Answering) && (ok ==> c in s.open && goOn)
    case CloseConn(c) => At(s, c, Closing)
    case Unregister(c) => At(s, c, Unregistering)
    case Finish(c) => At(s, c, Finishing)
    case ParentCancels => true
    case WaiterLeaves => s.abandoned > 0 && s.wg == 0
    case WatcherCloses(c) => s.cancelled && c in s.handlers && s.handlers[c].Watched()
  }

  function Move(s: State, c: ConnId, phase: Phase): State {
    s.(handlers := s.handlers[c := phase])
  }

  function Apply(s: State, e: Event): State
    requires Enabled(s, e)
  {
    match e
    case SetEngine(engine) =>
      var t := s.(shared := s.shared.WithEngine(engine));
      if !engine.Unavailable? then t.(outage := Normal)
      else if s.shared.engine.Unavailable? then t
      else t.(outage := Switched, exposed := PastCheck(s), late := {}, twice := {})
    case StartListening =>
      s.(controller := Listening, listening := true, shared := s.shared.WithListener(true))
    case StartAccepting => s.(controller := Idle, acceptor := Accepting, wg := s.wg + 1)
    case Snapshot => s.(controller := Sweeping(s.shared.conns, s.controller.ListenerClosed?))
    case CloseOne(c) =>
      s.(controller := Sweeping(s.controller.todo - {c}, s.controller.shutdown), open := s.open - {c})
    case SweepDone =>
      s.(controller := if s.controller.shutdown then Waiting else Idle,
         outage := if s.outage.Switched? then Closed else s.outage)
    case Detach => s.(controller := Detached(s.shared.held), shared := s.shared.WithListener(false))
    case CallCancel =>
      s.(controller := Cancelled(s.controller.hadListener), cancelled := s.cancelled || s.controller.hadListener)
    case CloseListener => s.(controller := ListenerClosed, listening := s.listening && !s.controller.hadListener)
    case CloseListenerFails => s.(controller := Idle)
    case GiveUp => s.(controller := Idle, abandoned := s.abandoned + 1)
    case WaitReturns => s.(controller := Idle, stopped := s.stopped || !s.acceptor.NotStarted?)
    case Accept(c) => s.(acceptor := Accepted(c), open := s.open + {c}, used := s.used + {c})
    case AddHandler => s.(acceptor := Added(s.acceptor.conn), wg := s.wg + 1)
    case Spawn => Move(s, s.acceptor.conn, Spawned).(acceptor := Accepting)
    case AcceptFails => s.(acceptor := Exiting)
    case LeaveAccept => s.(acceptor := Gone, wg := s.wg - 1)
    case Register(c) => Move(s, c, Registered).(shared := s.shared.WithConn(c))
    case Check(c) => Move(s, c, if s.shared.engine.RefuseConnections() then Closing else Dialing)
    case Dial(c, ok) => Move(s, c, if ok then Looping else Closing)
    case LookAtContext(c) => Move(s, c, if s.cancelled then Closing else Reading)
    case Read(c, ok) => Move(s, c, if ok then Deciding else Closing)
    case Decide(c, forward) =>
      Move(s, c, if s.shared.engine.RefuseConnections() then Closing
                 else if forward || s.shared.engine.PassThrough? then Forwarding else Answering)
    case Send(c, ok) =>
      Move(s, c, if ok then Relaying else Closing)
      .(late := s.late + {c}, twice := if c in s.late then s.twice + {c} else s.twice)
    case Relay(c, ok) => if ok then Deliver(Move(s, c, Looping), c) else Move(s, c, Closing)
    case Answer(c, ok, goOn) =>
      if ok then Deliver(Move(s, c, Looping), c) else Move(s, c, if goOn then Looping else Closing)
    case CloseConn(c) => Move(s, c, Unregistering).(open := s.open - {c})
    case Unregister(c) => Move(s, c, Finishing).(shared := s.shared.WithoutConn(c))
    case Finish(c) => s.(handlers := s.handlers - {c}, wg := s.wg - 1)
    case ParentCancels => s.(cancelled := true)
    case WaiterLeaves => s.(abandoned := s.abandoned - 1)
    case WatcherCloses(c) => s.(open := s.open - {c})
  }

  function Deliver(s: State, c: ConnId): State {
    s.(delivered := s.delivered[c := (if c in s.delivered then s.delivered[c] else 0) + 1])
  }

  function PastCheck(s: State): set<ConnId> {
    set c | c in s.handlers && s.handlers[c].PastCheck()
  }

  /** A run from `s`: every event is enabled when it happens. */
  ghost predicate Valid(s: State, run: seq<Event>)
    decreases |run|
  {
    run != [] ==> Enabled(s, run[0]) && Valid(Apply(s, run[0]), run[1..])
  }

  ghost function After(s: State, run: seq<Event>): State
    requires Valid(s, run)
    decreases |run|
  {
    if run == [] then s else After(Apply(s, run[0]), run[1..])
  }

  // ---------------------------------------------------------------- invariants

  /** The wait group counts the accept loop and the handlers, and the one about to be spawned. */
  ghost predicate Tallied(s: State) {
    && s.wg == |s.handlers| + (if s.acceptor.Added? then 2 else if Live(s.acceptor) then 1 else 0)
    && (s.controller.Listening? ==> s.acceptor.NotStarted?)
    && (s.acceptor.NotStarted? ==> s.handlers == map[])
    && (s.stopped ==> s.acceptor.Gone? && s.handlers == map[])
  }

  /** Registered connections belong to live handlers, and a connection without a handler, or with one that
      is past its closing, is closed. */
  ghost predicate Tracked(s: State) {
    && s.handlers.Keys <= s.used && s.open <= s.used && s.delivered.Keys <= s.used
    && (s.acceptor.Accepted? || s.acceptor.Added? ==>
          s.acceptor.conn in s.used && s.acceptor.conn !in s.handlers && s.acceptor.conn !in s.delivered)
    && (forall c | c in s.shared.conns :: c in s.handlers)
    && (forall c | c in s.handlers :: c in s.shared.conns <==> s.handlers[c].IsRegistered())
    && (forall c | c in s.open :: c in s.handlers || Held(s, c))
    && (forall c | c in s.handlers && c in s.open :: !s.handlers[c].Unregistering? && !s.handlers[c].Finishing?)
  }

  ghost predicate Counted(s: State) {
    Tallied(s) && Tracked(s)
  }

  predicate Live(a: Acceptor) {
    !a.NotStarted? && !a.Gone?
  }

  predicate Held(s: State, c: ConnId) {
    (s.acceptor.Accepted? || s.acceptor.Added?) && s.acceptor.conn == c
  }

  /** The outage argument.  Handlers register before they read the engine, the controller sets the engine
      before it takes its snapshot: so whatever was past the check when the engine changed, and is still open,
      is registered, then in the snapshot, then closed. */
  ghost predicate Contained(s: State) {
    && (s.outage.Normal? <==> !s.shared.engine.Unavailable?)
    && (!s.outage.Normal? ==>
          && s.exposed <= s.used && s.late <= s.exposed && s.twice == {}
          && (forall c | c in s.handlers :: s.handlers[c].PastCheck() ==> c in s.exposed)
          && (forall c | c in s.exposed :: Held(s, c) ==> false)
          && (forall c | c in s.handlers && c in s.exposed :: !s.handlers[c].Spawned? && !s.handlers[c].Registered?)
          && (forall c | c in s.handlers && s.handlers[c].Forwarding? :: c !in s.late))
    && (s.outage.Switched? && s.controller.Sweeping? ==> s.open * s.exposed <= s.controller.todo)
    && (s.outage.Closed? ==> s.open * s.exposed == {})
  }

  ghost predicate Inv(s: State) {
    Counted(s) && Contained(s)
  }

  lemma InitInv()
    ensures Inv(Init())
  {}

  predicate IsControllerEvent(e: Event) {
    e.SetEngine? || e.StartListening? || e.StartAccepting? || e.Snapshot? || e.CloseOne? || e.SweepDone? ||
    e.Detach? || e.CallCancel? || e.CloseListener? || e.CloseListenerFails? || e.GiveUp? || e.WaitReturns? ||
    e.ParentCancels? || e.WaiterLeaves?
  }

  predicate IsSweepEvent(e: Event) {
    e.Snapshot? || e.CloseOne? || e.SweepDone?
  }

  lemma SetEngineKeepsCounted(s: State, e: Event)
    requires Counted(s) && Enabled(s, e) && e.SetEngine?
    ensures Counted(Apply(s, e))
  {
    hide PastCheck;
    var t := Apply(s, e);
    assert t == s.(shared := s.shared.WithEngine(e.engine), outage := t.outage, exposed := t.exposed,
                   late := t.late, twice := t.twice);
  }

  lemma SetEngineKeepsContained(s: State, e: Event)
    requires Counted(s) && Contained(s) && Enabled(s, e) && e.SetEngine?
    ensures Contained(Apply(s, e))
  {}

  lemma SweepShape(s: State, e: Event)
    requires Enabled(s, e) && IsSweepEvent(e)
    ensures var t := Apply(s, e);
            && t == s.(controller := t.controller, open := t.open, outage := t.outage)
            && t.open <= s.open && !t.controller.Listening?
            && (e.Snapshot? ==> t.controller.Sweeping? && t.controller.todo == s.shared.conns && t.outage == s.outage)
            && (e.CloseOne? ==> s.controller.Sweeping? && t.controller.Sweeping? && t.outage == s.outage
                                && s.controller.todo * t.open <= t.controller.todo)
            && (e.SweepDone? ==> s.controller.Sweeping? && s.controller.todo == {} && !t.controller.Sweeping?
                                 && t.outage == if s.outage.Switched? then Closed else s.outage)
  {}

  lemma SweepKeepsInv(s: State, e: Event)
    requires Inv(s) && Enabled(s, e) && IsSweepEvent(e)
    ensures Inv(Apply(s, e))
  {
    hide Apply, Enabled;
    SweepShape(s, e);
  }

  /** The other calls of the controller touch neither handlers nor connections nor the engine. */
  lemma CallShape(s: State, e: Event)
    requires Enabled(s, e) && IsControllerEvent(e) && !e.SetEngine? && !IsSweepEvent(e)
    ensures var t := Apply(s, e);
            && t == s.(controller := t.controller, acceptor := t.acceptor, wg := t.wg, abandoned := t.abandoned,
                       listening := t.listening, shared := s.shared.WithListener(t.shared.held),
                       cancelled := t.cancelled, stopped := t.stopped)
            && (t.abandoned > s.abandoned ==> e.GiveUp?)
            && (t.controller.Sweeping? ==> t.controller == s.controller)
            && (t.controller.Listening? ==> t.acceptor.NotStarted? || s.controller.Listening?)
            && (if e.StartAccepting? then
                  s.controller.Listening? && t.controller.Idle? && t.acceptor.Accepting? && t.wg == s.wg + 1
                else t.acceptor == s.acceptor && t.wg == s.wg)
            && (t.stopped ==> s.stopped || (s.wg == 0 && !s.acceptor.NotStarted? && t.acceptor == s.acceptor))
  {}

  lemma CallKeepsInv(s: State, e: Event)
    requires Inv(s) && Enabled(s, e) && IsControllerEvent(e) && !e.SetEngine? && !IsSweepEvent(e)
    ensures Inv(Apply(s, e))
  {
    hide Apply, Enabled, IsControllerEvent, IsSweepEvent;
    CallShape(s, e);
  }

  lemma AcceptKeepsInv(s: State, c: ConnId)
    requires Inv(s) && Enabled(s, Accept(c))
    ensures Inv(Apply(s, Accept(c)))
  {}

  lemma AddHandlerKeepsInv(s: State)
    requires Inv(s) && Enabled(s, AddHandler)
    ensures Inv(Apply(s, AddHandler))
  {}

  lemma Sizes(h: map<ConnId, Phase>, c: ConnId, phase: Phase)
    ensures |h[c := phase]| == if c in h then |h| else |h| + 1
    ensures c in h ==> |h - {c}| == |h| - 1
  {
    assert h[c := phase].Keys == h.Keys + {c};
    assert (h - {c}).Keys == h.Keys - {c};
  }

  lemma SpawnKeepsCounted(s: State)
    requires Counted(s) && Enabled(s, Spawn)
    ensures Counted(Apply(s, Spawn))
  {
    Sizes(s.handlers, s.acceptor.conn, Spawned);
    assert Tracked(Apply(s, Spawn)) by { hide Tallied; }
  }

  lemma SpawnKeepsContained(s: State)
    requires Contained(s) && Enabled(s, Spawn)
    ensures Contained(Apply(s, Spawn))
  {}

  lemma LeavingKeepsInv(s: State, e: Event)
    requires Inv(s) && Enabled(s, e) && (e.AcceptFails? || e.LeaveAccept?)
    ensures Inv(Apply(s, e))
  {}

  /** An event of a handler moves that handler and no other. */
  predicate IsStepOf(e: Event, c: ConnId) {
    match e
    case Check(d) => c == d
    case Dial(d, _) => c == d
    case LookAtContext(d) => c == d
    case Read(d, _) => c == d
    case Decide(d, _) => c == d
    case Send(d, _) => c == d
    case Relay(d, _) => c == d
    case Answer(d, _, _) => c == d
    case _ => false
  }

  lemma StepShape(s: State, e: Event, c: ConnId)
    requires Enabled(s, e) && IsStepOf(e, c)
    ensures var t := Apply(s, e);
            && c in s.handlers && c in t.handlers
            && t == s.(handlers := s.handlers[c := t.handlers[c]], late := t.late, twice := t.twice,
                       delivered := t.delivered)
            && (s.handlers[c].PastCheck() || s.handlers[c].Registered?)
            && (t.handlers[c].PastCheck() || t.handlers[c].Closing?)
            && (s.handlers[c].Registered? && s.shared.engine.Unavailable? ==> t.handlers[c].Closing?)
            && (t.handlers[c].Forwarding? ==> !s.shared.engine.Unavailable?)
            && (if s.handlers[c].Forwarding? then
                  t.late == s.late + {c} && (c !in s.late ==> t.twice == s.twice)
                else t.late == s.late && t.twice == s.twice)
            && (t.delivered == s.delivered ||
                  (c in s.open && c in t.delivered && t.delivered == s.delivered[c := t.delivered[c]]))
  {}

  lemma StepKeepsCounted(s: State, e: Event, c: ConnId)
    requires Counted(s) && Enabled(s, e) && IsStepOf(e, c)
    ensures Counted(Apply(s, e))
  {
    hide Apply, Enabled, IsStepOf;
    StepShape(s, e, c);
    Sizes(s.handlers, c, Apply(s, e).handlers[c]);
  }

  lemma StepKeepsContained(s: State, e: Event, c: ConnId)
    requires Contained(s) && Enabled(s, e) && IsStepOf(e, c)
    ensures Contained(Apply(s, e))
  {
    hide Apply, Enabled, IsStepOf;
    StepShape(s, e, c);
  }

  predicate IsEdgeEvent(e: Event) {
    e.Register? || e.CloseConn? || e.Unregister? || e.Finish? || e.WatcherCloses?
  }

  lemma EdgeShape(s: State, e: Event)
    requires Enabled(s, e) && IsEdgeEvent(e)
    ensures var t := Apply(s, e);
            && t == s.(handlers := t.handlers, shared := s.shared.(conns := t.shared.conns), open := t.open,
                       wg := t.wg)
            && e.c in s.handlers
            && (e.Register? ==> s.handlers[e.c].Spawned? && t.handlers == s.handlers[e.c := Registered])
            && (e.CloseConn? ==> s.handlers[e.c].Closing? && t.handlers == s.handlers[e.c := Unregistering])
            && (e.Unregister? ==> s.handlers[e.c].Unregistering? && t.handlers == s.handlers[e.c := Finishing])
            && (e.Finish? ==> s.handlers[e.c].Finishing? && t.handlers == s.handlers - {e.c})
            && (e.WatcherCloses? ==> t.handlers == s.handlers && s.handlers[e.c].Watched())
            && t.wg == (if e.Finish? then s.wg - 1 else s.wg)
            && t.open == (if e.CloseConn? || e.WatcherCloses? then s.open - {e.c} else s.open)
            && t.shared.conns == (if e.Register? then s.shared.conns + {e.c}
                                  else if e.Unregister? then s.shared.conns - {e.c} else s.shared.conns)
  {}

  lemma EdgeKeepsTallied(s: State, e: Event)
    requires Counted(s) && Enabled(s, e) && IsEdgeEvent(e)
    ensures Tallied(Apply(s, e))
  {
    hide Apply, Enabled, Tracked;
    EdgeShape(s, e);
    Sizes(s.handlers, e.c, if e.Finish? || e.WatcherCloses? then Spawned else Apply(s, e).handlers[e.c]);
  }

  lemma EdgeKeepsTracked(s: State, e: Event)
    requires Tracked(s) && Enabled(s, e) && IsEdgeEvent(e)
    ensures Tracked(Apply(s, e))
  {
    hide Apply, Enabled;
    EdgeShape(s, e);
  }

  lemma EdgeMoves(s: State, e: Event)
    requires Enabled(s, e) && IsEdgeEvent(e)
    ensures var t := Apply(s, e);
            && t.open <= s.open
            && (forall d | d in t.handlers :: d in s.handlers)
            && (forall d | d in t.handlers && t.handlers[d] != s.handlers[d] ::
                  !t.handlers[d].PastCheck() && (t.handlers[d].Registered? ==> s.handlers[d].Spawned?)
                  && !t.handlers[d].Spawned?)
  {
    hide Apply, Enabled;
    EdgeShape(s, e);
  }

  lemma EdgeKeepsContained(s: State, e: Event)
    requires Contained(s) && Enabled(s, e) && IsEdgeEvent(e)
    ensures Contained(Apply(s, e))
  {
    hide Apply, Enabled, IsEdgeEvent;
    EdgeShape(s, e);
    EdgeMoves(s, e);
  }

  /** Every event of every goroutine keeps the invariant. */
  lemma EventKeepsInv(s: State, e: Event)
    requires Inv(s) && Enabled(s, e)
    ensures Inv(Apply(s, e))
  {
    hide Tallied, Tracked, Contained, Enabled, Apply;
    if IsSweepEvent(e) {
      SweepKeepsInv(s, e);
    } else if e.SetEngine? {
      SetEngineKeepsCounted(s, e);
      SetEngineKeepsContained(s, e);
    } else if IsControllerEvent(e) {
      CallKeepsInv(s, e);
    } else if e.Accept? {
      AcceptKeepsInv(s, e.c);
    } else if e.AddHandler? {
      AddHandlerKeepsInv(s);
    } else if e.Spawn? {
      SpawnKeepsCounted(s);
      SpawnKeepsContained(s);
    } else if e.AcceptFails? || e.LeaveAccept? {
      LeavingKeepsInv(s, e);
    } else if IsEdgeEvent(e) {
      EdgeKeepsTallied(s, e);
      EdgeKeepsTracked(s, e);
      EdgeKeepsContained(s, e);
    } else {
      StepKeepsCounted(s, e, e.c);
      StepKeepsContained(s, e, e.c);
    }
  }

  lemma {:induction false} RunKeepsInv(s: State, run: seq<Event>)
    requires Inv(s) && Valid(s, run)
    ensures Inv(After(s, run))
    decreases |run|
  {
    hide Inv, Enabled, Apply;
    if run == [] {
    } else {
      EventKeepsInv(s, run[0]);
      RunKeepsInv(Apply(s, run[0]), run[1..]);
    }
  }

  ghost predicate Reachable(s: State) {
    exists run :: Valid(Init(), run) && After(Init(), run) == s
  }

  lemma ReachableInv(s: State)
    requires Reachable(s)
    ensures Inv(s)
  {
    hide Inv, Valid, After;
    InitInv();
    var run :| Valid(Init(), run) && After(Init(), run) == s;
    RunKeepsInv(Init(), run);
  }

  // ---------------------------------------------------------------- what no event undoes

  /** Only a connection never seen before becomes open, replies are written to open connections only, an outage
      goes on until the engine is changed, two events add to the wait group, and one leaves a waiter behind. */
  ghost predicate Follows(s: State, e: Event, t: State) {
    && (t.wg > s.wg <==> e.StartAccepting? || e.AddHandler?)
    && (t.abandoned > s.abandoned ==> e.GiveUp?)
    && s.used <= t.used
    && (forall c | c in t.open && c !in s.open :: c !in s.used)
    && (forall c | c !in s.open :: SameReplies(s, t, c))
    && (s.shared.engine.Unavailable? && !s.outage.Normal? && (e.SetEngine? ==> e.engine.Unavailable?) ==>
          !t.outage.Normal? && t.exposed == s.exposed && s.late <= t.late)
  }

  predicate SameReplies(s: State, t: State, c: ConnId) {
    (c in t.delivered <==> c in s.delivered) && (c in s.delivered ==> t.delivered[c] == s.delivered[c])
  }

  lemma SetEngineFollows(s: State, e: Event)
    requires Enabled(s, e) && e.SetEngine?
    ensures Follows(s, e, Apply(s, e))
  {
    hide PastCheck;
  }

  lemma SweepFollows(s: State, e: Event)
    requires Enabled(s, e) && IsSweepEvent(e)
    ensures Follows(s, e, Apply(s, e))
  {
    hide Apply, Enabled;
    SweepShape(s, e);
  }

  lemma CallFollows(s: State, e: Event)
    requires Enabled(s, e) && IsControllerEvent(e) && !e.SetEngine? && !IsSweepEvent(e)
    ensures Follows(s, e, Apply(s, e))
  {
    hide Apply, Enabled;
    CallShape(s, e);
  }

  lemma AcceptorFollows(s: State, e: Event)
    requires Enabled(s, e) && (e.Accept? || e.AddHandler? || e.Spawn? || e.AcceptFails? || e.LeaveAccept?)
    ensures Follows(s, e, Apply(s, e))
  {}

  lemma EdgeFollows(s: State, e: Event)
    requires Enabled(s, e) && IsEdgeEvent(e)
    ensures Follows(s, e, Apply(s, e))
  {
    hide Apply, Enabled;
    EdgeShape(s, e);
  }

  lemma StepFollows(s: State, e: Event, c: ConnId)
    requires Enabled(s, e) && IsStepOf(e, c)
    ensures Follows(s, e, Apply(s, e))
  {
    hide Apply, Enabled;
    StepShape(s, e, c);
  }

  lemma EventFollows(s: State, e: Event)
    requires Enabled(s, e)
    ensures Follows(s, e, Apply(s, e))
  {
    hide Follows, Enabled, Apply;
    if IsSweepEvent(e) {
      SweepFollows(s, e);
    } else if e.SetEngine? {
      SetEngineFollows(s, e);
    } else if IsControllerEvent(e) {
      CallFollows(s, e);
    } else if e.Accept? || e.AddHandler? || e.Spawn? || e.AcceptFails? || e.LeaveAccept? {
      AcceptorFollows(s, e);
    } else if IsEdgeEvent(e) {
      EdgeFollows(s, e);
    } else {
      StepFollows(s, e, e.c);
    }
  }

  // ---------------------------------------------------------------- main results: outage

  /** No event of the run ends the outage. */
  ghost predicate StaysDown(run: seq<Event>) {
    forall k | 0 <= k < |run| :: run[k].SetEngine? ==> run[k].engine.Unavailable?
  }

  /** In every interleaving: once the engine was set to unavailable, each connection forwards at most one
      more command; and once the close of all connections that followed is complete, every connection still
      open belongs to a handler that has not passed its refuse check, or to none yet, and has forwarded
      nothing since the switch. */
  lemma OutageIsContained(s: State)
    requires Reachable(s) && !s.outage.Normal?
    ensures s.shared.engine == Unavailable && s.twice == {}
    ensures s.outage.Closed? ==>
              forall c | c in s.open ::
                c !in s.late && (c in s.handlers ==> s.handlers[c] in {Spawned, Registered, Closing})
  {
    ReachableInv(s);
    if s.outage.Closed? {
      forall c | c in s.open
        ensures c !in s.late && (c in s.handlers ==> s.handlers[c] in {Spawned, Registered, Closing})
      {
        assert c !in s.open * s.exposed;
      }
    }
  }

  lemma {:induction false} ExposedIsFixed(s: State, run: seq<Event>)
    requires Valid(s, run) && Inv(s) && StaysDown(run) && !s.outage.Normal?
    ensures !After(s, run).outage.Normal? && After(s, run).exposed == s.exposed && s.late <= After(s, run).late
    decreases |run|
  {
    if run == [] {
    } else {
      EventKeepsInv(s, run[0]);
      EventFollows(s, run[0]);
      ExposedIsFixed(Apply(s, run[0]), run[1..]);
    }
  }

  /** From then on, for as long as the engine stays unavailable, none of those connections, and none that
      is accepted later, ever gets past its check or forwards anything. */
  lemma OutageIsPermanent(s: State, run: seq<Event>, c: ConnId)
    requires Reachable(s) && s.outage.Closed? && Valid(s, run) && StaysDown(run)
    requires c in s.open || c !in s.used
    ensures var t := After(s, run);
            c !in t.late
            && (c in t.handlers ==> t.handlers[c] in {Spawned, Registered, Closing, Unregistering, Finishing})
  {
    hide Valid, After;
    ReachableInv(s);
    RunKeepsInv(s, run);
    ExposedIsFixed(s, run);
    assert c in s.open ==> c !in s.open * s.exposed;
    assert c !in s.exposed;
  }

  /** A connection that was closed stays closed, and not one more reply is written to it. */
  lemma {:induction false} ClosedForGood(s: State, run: seq<Event>, c: ConnId)
    requires Valid(s, run) && c in s.used && c !in s.open
    ensures var t := After(s, run);
            c in t.used && c !in t.open
            && (c in t.delivered <==> c in s.delivered) && (c in s.delivered ==> t.delivered[c] == s.delivered[c])
    decreases |run|
  {
    hide Enabled, Apply;
    if run == [] {
    } else {
      EventFollows(s, run[0]);
      ClosedForGood(Apply(s, run[0]), run[1..], c);
    }
  }

  // ---------------------------------------------------------------- main results: shutdown

  /** When `Shutdown` of a started proxy has returned without error there is no accept loop, no handler and
      no registered or open connection, the wait group is zero, and this is so for ever after. */
  lemma ShutdownIsFinal(s: State, run: seq<Event>)
    requires Reachable(s) && s.stopped && Valid(s, run)
    ensures var t := After(s, run);
            && t.stopped && t.acceptor.Gone? && t.wg == 0
            && t.handlers == map[] && t.shared.conns == {} && t.open == {}
    ensures forall c :: !Enabled(After(s, run), Accept(c))
  {
    hide Valid, After;
    ReachableInv(s);
    RunKeepsInv(s, run);
    StoppedForGood(s, run);
  }

  lemma {:induction false} StoppedForGood(s: State, run: seq<Event>)
    requires s.stopped && Valid(s, run)
    ensures After(s, run).stopped
    decreases |run|
  {
    if run == [] {
    } else {
      assert Apply(s, run[0]).stopped;
      StoppedForGood(Apply(s, run[0]), run[1..]);
    }
  }

  /** The goroutines inside `Wait`: that of the present shutdown, and those left behind. */
  function Waiters(s: State): nat {
    s.abandoned + if s.controller.Waiting? then 1 else 0
  }

  /** An `Add` that finds the counter at zero while somebody waits. */
  predicate Races(s: State, e: Event)
    requires Enabled(s, e)
  {
    Apply(s, e).wg > s.wg && s.wg == 0 && Waiters(s) > 0
  }

  /** The wait group never goes below zero, only the start of the proxy adds to it at zero, and that races with
      a waiter exactly if a shutdown gave up before the start and its waiter has not left. */
  lemma NoAddAtZero(s: State, e: Event)
    requires Reachable(s) && Enabled(s, e)
    ensures s.wg >= 0
    ensures Apply(s, e).wg > s.wg ==> s.wg >= 1 || e.StartAccepting?
    ensures Races(s, e) <==> e.StartAccepting? && s.abandoned > 0
  {
    hide Apply, Enabled, Contained, Tracked;
    ReachableInv(s);
    EventFollows(s, e);
    AddsWhen(s, e);
  }

  lemma AddsWhen(s: State, e: Event)
    requires Enabled(s, e)
    ensures e.StartAccepting? ==> s.controller.Listening?
    ensures e.AddHandler? ==> s.acceptor.Accepted?
  {}

  /** Something a caller can see to: no shutdown that gave up before the proxy is started. */
  ghost predicate StartsFirst(run: seq<Event>) {
    forall i, j | 0 <= i < j < |run| :: run[i].GiveUp? ==> !run[j].StartAccepting?
  }

  /** Then no `Add` of the whole run races. */
  lemma StartFirstNeverRaces(run: seq<Event>, e: Event)
    requires Valid(Init(), run) && Enabled(After(Init(), run), e)
    requires StartsFirst(run + [e])
    ensures !Races(After(Init(), run), e)
  {
    hide Apply, Enabled, Valid, After;
    NoAddAtZero(After(Init(), run), e);
    if e.StartAccepting? {
      forall i | 0 <= i < |run|
        ensures !run[i].GiveUp?
      {
        assert (run + [e])[i] == run[i] && (run + [e])[|run|] == e;
      }
      NobodyAbandoned(Init(), run);
    }
  }

  lemma {:induction false} NobodyAbandoned(s: State, run: seq<Event>)
    requires Valid(s, run) && s.abandoned == 0 && forall i | 0 <= i < |run| :: !run[i].GiveUp?
    ensures After(s, run).abandoned == 0
    decreases |run|
  {
    hide Apply, Enabled;
    if run == [] {
    } else {
      EventFollows(s, run[0]);
      NobodyAbandoned(Apply(s, run[0]), run[1..]);
    }
  }

  // ---------------------------------------------------------------- the results are about something

  lemma {:induction false} OneMore(s: State, run: seq<Event>, e: Event)
    requires Valid(s, run) && Enabled(After(s, run), e)
    ensures Valid(s, run + [e]) && After(s, run + [e]) == Apply(After(s, run), e)
    decreases |run|
  {
    hide Apply, Enabled;
    if run == [] {
      assert run + [e] == [e] && [e][1..] == [];
    } else {
      assert (run + [e])[0] == run[0] && (run + [e])[1..] == run[1..] + [e];
      OneMore(Apply(s, run[0]), run[1..], e);
    }
  }

  lemma Take(s: State, e: Event) returns (t: State)
    requires Reachable(s) && Enabled(s, e)
    ensures Reachable(t) && t == Apply(s, e)
  {
    hide Apply, Enabled, Valid, After;
    var run :| Valid(Init(), run) && After(Init(), run) == s;
    OneMore(Init(), run, e);
    t := Apply(s, e);
  }

  lemma InitReachable()
    ensures Reachable(Init())
  {
    assert Valid(Init(), []) && After(Init(), []) == Init();
  }

  /** The proxy is started. */
  lemma Started() returns (s: State)
    ensures Reachable(s) && s == Init().(shared := Shared(PassThrough, {}, true), acceptor := Accepting, wg := 1,
                                         listening := true)
  {
    hide Reachable;
    s := Init();
    InitReachable();
    s := Take(s, StartListening);
    s := Take(s, StartAccepting);
  }

  /** A shutdown can come to its end. */
  lemma StoppedIsReachable() returns (s: State)
    ensures Reachable(s) && s.stopped
  {
    hide Reachable;
    s := Started();
    s := Take(s, Detach);
    s := Take(s, CallCancel);
    s := Take(s, CloseListener);
    s := Take(s, Snapshot);
    s := Take(s, SweepDone);
    s := Take(s, AcceptFails);
    s := Take(s, LeaveAccept);
    s := Take(s, WaitReturns);
  }

  /** An outage can be complete, after a connection did forward the one command it may. */
  lemma ClosedIsReachable() returns (s: State)
    ensures Reachable(s) && s.outage.Closed? && s.late == {0}
  {
    hide Reachable;
    s := Connected();
    s := Take(s, LookAtContext(0));
    s := Take(s, Read(0, true));
    s := Take(s, Decide(0, true));
    assert PastCheck(s) == {0};
    s := Take(s, SetEngine(Unavailable));
    s := Take(s, Send(0, true));
    s := Take(s, Snapshot);
    s := Take(s, CloseOne(0));
    s := Take(s, SweepDone);
  }

  /** One connection, past its check. */
  lemma Connected() returns (s: State)
    ensures Reachable(s)
    ensures s == Init().(shared := Shared(PassThrough, {0}, true), acceptor := Accepting, wg := 2, listening := true,
                         open := {0}, used := {0}, handlers := map[0 := Looping])
  {
    hide Reachable;
    s := Started();
    s := Take(s, Accept(0));
    s := Take(s, AddHandler);
    s := Take(s, Spawn);
    s := Take(s, Register(0));
    s := Take(s, Check(0));
    s := Take(s, Dial(0, true));
  }

  /** A shutdown before the start, given up with its waiter still there. */
  lemma GaveUp() returns (s: State)
    ensures Reachable(s) && s == Init().(abandoned := 1)
  {
    hide Reachable;
    s := Init();
    InitReachable();
    s := Take(s, Detach);
    s := Take(s, CallCancel);
    s := Take(s, CloseListener);
    s := Take(s, Snapshot);
    s := Take(s, SweepDone);
    s := Take(s, GiveUp);
  }

  /** So can the race: then comes the start. */
  lemma RaceIsReachable() returns (s: State)
    ensures Reachable(s) && Enabled(s, StartAccepting) && Races(s, StartAccepting)
  {
    hide Reachable;
    s := GaveUp();
    s := Take(s, StartListening);
  }
  /** A connection can live its whole life: one command forwarded and one answered, then end of input. */
  lemma LifeIsReachable() returns (s: State)
    ensures Reachable(s) && s.handlers == map[] && s.delivered == map[0 := 2] && s.shared.conns == {} && s.wg == 1
  {
    hide Reachable;
    s := Answered();
    s := Take(s, LookAtContext(0));
    s := Take(s, Read(0, false));
    s := Take(s, CloseConn(0));
    s := Take(s, Unregister(0));
    s := Take(s, Finish(0));
  }

  lemma Answered() returns (s: State)
    ensures Reachable(s)
    ensures s == Init().(shared := Shared(RandomMiss(0, 1.0), {0}, true), acceptor := Accepting, wg := 2,
                         listening := true, open := {0}, used := {0}, handlers := map[0 := Looping],
                         late := {0}, delivered := map[0 := 2])
  {
    hide Reachable;
    s := Connected();
    s := Take(s, LookAtContext(0));
    s := Take(s, Read(0, true));
    s := Take(s, Decide(0, true));
    s := Take(s, Send(0, true));
    s := Take(s, Relay(0, true));
    s := Take(s, SetEngine(RandomMiss(0, 1.0)));
    s := Take(s, LookAtContext(0));
    s := Take(s, Read(0, true));
    s := Take(s, Decide(0, false));
    s := Take(s, Answer(0, true, true));
  }

  /** A cancelled run closes a connection under its handler, which then leaves. */
  lemma CancelIsReachable() returns (s: State)
    ensures Reachable(s) && s.cancelled && s.open == {} && s.handlers == map[0 := Closing]
  {
    hide Reachable;
    s := Connected();
    s := Take(s, ParentCancels);
    s := Take(s, WatcherCloses(0));
    s := Take(s, LookAtContext(0));
  }
}
