/** One connection of the proxy: the loop of `handleConn` and `forwardCommand` in `internal/proxy/conn.go`. */
module Handler {
  import opened Bytes
  import opened Streams
  import opened Replies
  import opened ReplyTrees
  import opened Commands
  import opened Faults

  const UNSUPPORTED: set<Text> := {
    Ascii("SUBSCRIBE"), Ascii("PSUBSCRIBE"), Ascii("PUBLISH"), Ascii("BLPOP"), Ascii("BRPOP"),
    Ascii("BZPOPMIN"), Ascii("BZPOPMAX"), Ascii("MONITOR"), Ascii("MULTI"), Ascii("EXEC"),
    Ascii("WATCH"), Ascii("UNWATCH"), Ascii("EVAL"), Ascii("EVALSHA")
  }

  predicate Rejects(engine: Engine, cmd: Command) {
    engine != PassThrough && cmd.name in UNSUPPORTED
  }

  function RejectReply(cmd: Command): Text {
    ErrorReply(Ascii("cacheproof unsupported command under fault injection: ") + cmd.name)
  }

  /** The protocol a HELLO asks for: RESP3 or not. */
  function HelloProtocol(cmd: Command): Option<bool> {
    if cmd.name != Ascii("HELLO") || |cmd.args| < 2 then None
    else if cmd.args[1] == Ascii("2") then Some(false)
    else if cmd.args[1] == Ascii("3") then Some(true)
    else None
  }

  /** The commands that are refused while a fault engine is active. */
  predicate IsUnsupported(name: Text) {
    name == Ascii("SUBSCRIBE") || name == Ascii("PSUBSCRIBE") || name == Ascii("PUBLISH") || name == Ascii("BLPOP") ||
    name == Ascii("BRPOP") || name == Ascii("BZPOPMIN") || name == Ascii("BZPOPMAX") || name == Ascii("MONITOR") ||
    name == Ascii("MULTI") || name == Ascii("EXEC") || name == Ascii("WATCH") || name == Ascii("UNWATCH") ||
    name == Ascii("EVAL") || name == Ascii("EVALSHA")
  }

  lemma RejectsExactly(engine: Engine, c: Command)
    ensures Rejects(engine, c) <==> (engine.RandomMiss? || engine.Unavailable?) && IsUnsupported(c.name)
  {
    hide Ascii;
  }

  lemma HelloExactly(c: Command, resp3: bool)
    ensures HelloProtocol(c) == Some(resp3) <==>
            c.name == Ascii("HELLO") && |c.args| >= 2 && c.args[1] == Ascii(if resp3 then "3" else "2")
  {
    assert Ascii("2")[0] != Ascii("3")[0];
  }

  function Refusal(name: Text): Text {
    Ascii("-ERR ") + Sanitize(Ascii("cacheproof unsupported command under fault injection: ") + name) + Ascii("\r\n")
  }

  /** How a command must be handled: refused, answered with nil, or forwarded. */
  ghost predicate HandledRight(step: Step, engine: Engine) {
    var refused := engine != PassThrough && IsUnsupported(step.cmd.name);
    && (step.handling.Rejected? <==> refused)
    && (step.handling.Missed? <==> !refused && IsMiss(engine, step.cmd))
    && (refused ==> step.handling.reply == Refusal(step.cmd.name))
    && (step.handling.Missed? ==> step.handling.reply == Ascii("_\r\n") || step.handling.reply == Ascii("$-1\r\n"))
  }

  lemma RefusalText(c: Command)
    ensures RejectReply(c) == Refusal(c.name)
  {
    assert Ascii("-ERR ") == [MINUS] + Ascii("ERR ");
    assert Ascii("\r\n") == CRLF;
  }

  /** In every run every command is handled as the engine in force then demands: nothing but the listed commands
      is refused, nothing but reads of missed keys is answered with nil, and everything else is forwarded. */
  lemma {:induction false} RunHandlesRight(app: Text, up: Text, i: nat, room: nat, resp3: bool, env: Schedule)
    ensures var steps := Run(app, up, i, room, resp3, env).steps;
            forall k | 0 <= k < |steps| :: HandledRight(steps[k], env.engine(i + k))
    decreases |app|
  {
    hide Run, Handle, ParseCommand, Negotiate, HandledRight;
    RunStep(app, up, i, room, resp3, env);
    if !env.cancelled(i) && ParseCommand(app).Done? && !env.engine(i).RefuseConnections() {
      var cmd, n := ParseCommand(app).value, ParseCommand(app).used;
      var h := Handle(cmd, env.engine(i), up, resp3);
      if h.Done? {
        var step := Step(cmd, h.value, room > 0);
        StepHandledRight(step, env.engine(i), up, resp3);
        if room > 0 || h.value.Rejected? {
          var more := Run(app[n..], up[h.used..], i + 1, if room > 0 then room - 1 else 0,
                          Negotiate(cmd, h.value, resp3), env);
          RunHandlesRight(app[n..], up[h.used..], i + 1, if room > 0 then room - 1 else 0,
                          Negotiate(cmd, h.value, resp3), env);
          forall k | 0 <= k < |more.steps| + 1
            ensures HandledRight(Cons(step, more).steps[k], env.engine(i + k))
          {
            if k > 0 {
              assert HandledRight(more.steps[k - 1], env.engine(i + 1 + (k - 1)));
            }
          }
        }
      }
    }
  }

  lemma StepHandledRight(step: Step, engine: Engine, up: Text, resp3: bool)
    requires !engine.Unavailable? && Handle(step.cmd, engine, up, resp3).Done?
    requires step.handling == Handle(step.cmd, engine, up, resp3).value
    ensures HandledRight(step, engine)
  {
    hide ParseReply, IsUnsupported, IsMiss, Rejects, NilReply, RejectReply, Refusal, Engine.Decide, Ascii;
    RejectsExactly(engine, step.cmd);
    DecideExactly(engine, step.cmd);
    NilReplyIs(resp3);
    if IsUnsupported(step.cmd.name) {
      RefusalText(step.cmd);
    }
  }

  /** What the other goroutines do to a connection: whether the `i`-th time round the loop finds the context
      cancelled, the engine it then reads, and after how many replies the application side is closed. */
  datatype Schedule = Schedule(cancelled: nat -> bool, engine: nat -> Engine)

  datatype Handling = Forwarded(reply: Text, kind: byte) | Missed(reply: Text) | Rejected(reply: Text)

  /** One command handled; the reply may find the application gone. */
  datatype Step = Step(cmd: Command, handling: Handling, delivered: bool)

  datatype Stop =
    | Cancelled
    | ReadFailed(error: Error)
    | EngineRefuses(cmd: Command)
    | LostUpstream(cmd: Command, error: Error)  // sent upstream, but no reply came back
    | AppGone

  datatype Trace = Trace(steps: seq<Step>, stop: Stop)

  // ---------------------------------------------------------------- specification

  /** Handling one command: the reply and the upstream bytes used for it, or why the loop ends. */
  function Handle(cmd: Command, engine: Engine, up: Text, resp3: bool): (h: Parsed<Handling>)
    requires !engine.Unavailable?
    ensures h.Done? ==> h.used <= |up|
  {
    if Rejects(engine, cmd) then Done(Rejected(RejectReply(cmd)), 0)
    else if engine.Decide(cmd).ReplaceWithMiss? then Done(Missed(NilReply(resp3)), 0)
    else
      match ParseReply(up, 0)
      case Fail(e) => Fail(e)
      case Done(kind, n) => Done(Forwarded(up[..n], kind), n)
  }

  /** The protocol flag after a command was handled. */
  function Negotiate(cmd: Command, handling: Handling, resp3: bool): bool {
    if handling.Forwarded? && handling.kind != MINUS && HelloProtocol(cmd).Some? then HelloProtocol(cmd).value
    else resp3
  }

  /** The whole life of a connection that still has `app` to read from the application and `up` from the
      upstream, with room for `room` more replies before the application is gone. */
  function Run(app: Text, up: Text, i: nat, room: nat, resp3: bool, env: Schedule): Trace
    decreases |app|
  {
    if env.cancelled(i) then Trace([], Cancelled)
    else
      match ParseCommand(app)
      case Fail(e) => Trace([], ReadFailed(e))
      case Done(cmd, n) =>
        if env.engine(i).RefuseConnections() then Trace([], EngineRefuses(cmd))
        else
          match Handle(cmd, env.engine(i), up, resp3)
          case Fail(e) => Trace([], LostUpstream(cmd, e))
          case Done(handling, used) =>
            var step := Step(cmd, handling, room > 0);
            // A rejection that cannot be written does not end the loop.
            if room == 0 && !handling.Rejected? then Trace([step], AppGone)
            else
              Cons(step, Run(app[n..], up[used..], i + 1, if room > 0 then room - 1 else 0,
                             Negotiate(cmd, handling, resp3), env))
  }

  function Cons(step: Step, t: Trace): Trace {
    Trace([step] + t.steps, t.stop)
  }

  /** The bytes the application receives. */
  function ToApp(steps: seq<Step>): Text {
    if steps == [] then []
    else (if steps[0].delivered then steps[0].handling.reply else []) + ToApp(steps[1..])
  }

  /** The commands sent upstream by the steps. */
  function SentBy(steps: seq<Step>): seq<Command> {
    if steps == [] then []
    else (if steps[0].handling.Forwarded? then [steps[0].cmd] else []) + SentBy(steps[1..])
  }

  /** All commands sent upstream: those of the steps, and the last one if its reply never came. */
  function Sent(t: Trace): seq<Command> {
    SentBy(t.steps) + if t.stop.LostUpstream? then [t.stop.cmd] else []
  }

  function CommandsOf(steps: seq<Step>): seq<Command> {
    seq(|steps|, k requires 0 <= k < |steps| => steps[k].cmd)
  }

  /** The commands the recorder is shown: each command that was read, whatever becomes of it. */
  function Observed(t: Trace): seq<Command> {
    CommandsOf(t.steps) + if t.stop.EngineRefuses? || t.stop.LostUpstream? then [t.stop.cmd] else []
  }

  function RawBytes(cmds: seq<Command>): Text {
    if cmds == [] then [] else cmds[0].raw + RawBytes(cmds[1..])
  }

  /** The upstream bytes used by the steps. */
  function FromUpstream(steps: seq<Step>): Text {
    if steps == [] then []
    else (if steps[0].handling.Forwarded? then steps[0].handling.reply else []) + FromUpstream(steps[1..])
  }

  // ---------------------------------------------------------------- the loop

  /** The application's side: it takes `room` more replies and refuses every later one. */
  class AppConn {
    const reader: Reader
    var received: Text
    var room: nat

    constructor (reader: Reader, room: nat)
      ensures this.reader == reader && this.room == room && received == []
    {
      this.reader := reader;
      this.room := room;
      received := [];
    }

    method Write(b: Text) returns (ok: bool)
      modifies this
      ensures ok <==> old(room) > 0
      ensures ok ==> received == old(received) + b && room == old(room) - 1
      ensures !ok ==> received == old(received) && room == 0
    {
      ok := room > 0;
      if ok {
        received := received + b;
        room := room - 1;
      }
    }
  }

  /** The recorder, as far as a connection goes: what it is shown. */
  class Observer {
    var commands: seq<Command>

    constructor ()
      ensures commands == []
    {
      commands := [];
    }

    method Observe(cmd: Command)
      modifies this
      ensures commands == old(commands) + [cmd]
    {
      commands := commands + [cmd];
    }
  }

  /** The loop does what the specification says, byte for byte on all four streams, and the recorder is shown
      exactly the commands that were read. */
  method HandleConn(app: AppConn, upstream: Reader, sent: Buffer, recorder: Observer, env: Schedule)
    requires app.reader.Valid() && upstream.Valid() && app.reader != upstream
    modifies app, app.reader, upstream, sent, recorder
    ensures app.reader.Valid() && upstream.Valid()
    ensures var t := Run(old(app.reader.Rest()), old(upstream.Rest()), 0, old(app.room), false, env);
            && app.received == old(app.received) + ToApp(t.steps)
            && sent.bytes == old(sent.bytes) + RawBytes(Sent(t))
            && (!t.stop.LostUpstream? ==> old(upstream.Rest()) == FromUpstream(t.steps) + upstream.Rest())
            && recorder.commands == old(recorder.commands) + Observed(t)
  {
    hide *;
    ghost var t: Trace;
    ghost var app0, up0 := app.reader.Rest(), upstream.Rest();
    ghost var room0 := app.room;
    ghost var steps: seq<Step> := [];
    var resp3 := false;
    var i: nat := 0;
    GlueNone(Run(app0, up0, 0, room0, resp3, env), app.received, sent.bytes, up0);
    NoneObserved(recorder.commands);
    while true
      invariant app.reader.Valid() && upstream.Valid()
      invariant Run(app0, up0, 0, room0, false, env) ==
                Glue(steps, Run(app.reader.Rest(), upstream.Rest(), i, app.room, resp3, env))
      invariant app.received == old(app.received) + ToApp(steps)
      invariant sent.bytes == old(sent.bytes) + RawBytes(SentBy(steps))
      invariant up0 == FromUpstream(steps) + upstream.Rest()
      invariant recorder.commands == old(recorder.commands) + CommandsOf(steps)
      decreases |app.reader.Rest()|
    {
      ghost var appRest, upRest, room := app.reader.Rest(), upstream.Rest(), app.room;
      RunStep(appRest, upRest, i, room, resp3, env);
      if env.cancelled(i) {
        t := Trace(steps, Cancelled);
        Finish(steps, Trace([], Cancelled));
        return;
      }
      var command := ReadCommand(app.reader);
      FollowsMeans(ParseCommand(appRest), command, appRest, app.reader.Rest());
      if command.Err? {
        t := Trace(steps, ReadFailed(command.error));
        Finish(steps, Trace([], ReadFailed(command.error)));
        return;
      }
      var cmd := command.value;
      recorder.Observe(cmd);
      MoreObserved(old(recorder.commands), steps, cmd);
      var engine := env.engine(i);
      if engine.RefuseConnections() {
        t := Trace(steps, EngineRefuses(cmd));
        Finish(steps, Trace([], EngineRefuses(cmd)));
        return;
      }
      RefuseMeans(engine);
      var handling := HandleCommand(cmd, engine, upstream, sent, resp3);
      FollowsMeans(Handle(cmd, engine, upRest, resp3), handling, upRest, upstream.Rest());
      if handling.Err? {
        t := Trace(steps, LostUpstream(cmd, handling.error));
        Finish(steps, Trace([], LostUpstream(cmd, handling.error)));
        LastSent(steps, cmd, handling.error, old(sent.bytes));
        return;
      }
      var ok := app.Write(handling.value.reply);
      ghost var step := Step(cmd, handling.value, ok);
      HandleUses(cmd, engine, upRest, resp3);
      OneMore(steps, step, old(app.received), old(sent.bytes), upRest, upstream.Rest());
      if !ok && !handling.value.Rejected? {
        t := Trace(steps + [step], AppGone);
        Finish(steps, Trace([step], AppGone));
        return;
      }
      GlueOne(steps, step, Run(app.reader.Rest(), upstream.Rest(), i + 1, app.room,
                               Negotiate(cmd, handling.value, resp3), env));
      steps := steps + [step];
      resp3 := Negotiate(cmd, handling.value, resp3);
      i := i + 1;
    }
  }

  /** `forwardCommand`, or the synthetic reply: what was written upstream is the command's raw bytes if it
      was forwarded, and nothing otherwise. */
  method HandleCommand(cmd: Command, engine: Engine, upstream: Reader, sent: Buffer, resp3: bool)
    returns (r: Result<Handling>)
    requires upstream.Valid() && !engine.Unavailable?
    modifies upstream, sent
    ensures upstream.Valid()
    ensures Follows(Handle(cmd, engine, old(upstream.Rest()), resp3), r, old(upstream.Rest()), upstream.Rest())
    ensures sent.bytes == old(sent.bytes) + if r.Err? || r.value.Forwarded? then cmd.raw else []
  {
    hide ParseReply, NilReply, RejectReply;
    if Rejects(engine, cmd) {
      return Ok(Rejected(RejectReply(cmd)));
    }
    if engine.Decide(cmd).ReplaceWithMiss? {
      return Ok(Missed(NilReply(resp3)));
    }
    sent.Write(cmd.raw);
    ghost var up := upstream.Rest();
    var reply, kind := ReadReplyRaw(upstream);
    if kind.Err? {
      return Err(kind.error);
    }
    assert up[..|reply|] == reply;
    return Ok(Forwarded(reply, kind.value));
  }

  // ---------------------------------------------------------------- lemmas of the loop

  ghost function Glue(steps: seq<Step>, t: Trace): Trace {
    Trace(steps + t.steps, t.stop)
  }

  lemma GlueNone(t: Trace, received: Text, sent: Text, up: Text)
    ensures Glue([], t) == t
    ensures received == received + ToApp([]) && sent == sent + RawBytes(SentBy([])) && up == FromUpstream([]) + up
  {
    assert [] + t.steps == t.steps;
  }

  lemma NoneObserved(seen: seq<Command>)
    ensures seen == seen + CommandsOf([])
  {}

  /** The recorder's account when one more command has been read, whether it ends the loop or not. */
  lemma MoreObserved(seen: seq<Command>, steps: seq<Step>, cmd: Command)
    ensures seen + Observed(Trace(steps, EngineRefuses(cmd))) == (seen + CommandsOf(steps)) + [cmd]
    ensures forall e :: seen + Observed(Trace(steps, LostUpstream(cmd, e))) == (seen + CommandsOf(steps)) + [cmd]
    ensures forall step: Step | step.cmd == cmd ::
              && seen + CommandsOf(steps + [step]) == (seen + CommandsOf(steps)) + [cmd]
              && Observed(Trace(steps + [step], AppGone)) == CommandsOf(steps + [step])
  {
    forall step: Step | step.cmd == cmd
      ensures CommandsOf(steps + [step]) == CommandsOf(steps) + [cmd]
    {}
  }

  lemma GlueOne(steps: seq<Step>, step: Step, t: Trace)
    ensures Glue(steps, Cons(step, t)) == Glue(steps + [step], t)
  {
    assert steps + ([step] + t.steps) == steps + [step] + t.steps;
  }

  lemma Finish(steps: seq<Step>, t: Trace)
    ensures Glue(steps, t) == Trace(steps + t.steps, t.stop)
    ensures t.steps == [] ==> Glue(steps, t) == Trace(steps, t.stop)
    ensures !t.stop.LostUpstream? ==> Sent(Trace(steps + t.steps, t.stop)) == SentBy(steps + t.steps)
    ensures t.steps == [] && !t.stop.LostUpstream? ==> Sent(Trace(steps, t.stop)) == SentBy(steps)
    ensures t.steps == [] && !t.stop.LostUpstream? && !t.stop.EngineRefuses? ==>
              Observed(Trace(steps, t.stop)) == CommandsOf(steps)
  {
    assert t.steps == [] ==> steps + t.steps == steps;
    assert forall cs: seq<Command> :: cs + [] == cs;
  }

  lemma LastSent(steps: seq<Step>, cmd: Command, e: Error, sent: Text)
    ensures sent + RawBytes(Sent(Trace(steps, LostUpstream(cmd, e)))) == (sent + RawBytes(SentBy(steps))) + cmd.raw
  {
    RawBytesAppend(SentBy(steps), [cmd]);
    assert RawBytes([cmd]) == cmd.raw + RawBytes([]);
  }

  lemma {:induction false} RawBytesAppend(a: seq<Command>, b: seq<Command>)
    ensures RawBytes(a + b) == RawBytes(a) + RawBytes(b)
  {
    if a == [] {
      assert a + b == b;
    } else {
      assert (a + b)[1..] == a[1..] + b;
      RawBytesAppend(a[1..], b);
    }
  }

  lemma StepsAppend(a: seq<Step>, b: seq<Step>)
    ensures ToApp(a + b) == ToApp(a) + ToApp(b)
    ensures SentBy(a + b) == SentBy(a) + SentBy(b)
    ensures FromUpstream(a + b) == FromUpstream(a) + FromUpstream(b)
  {
    hide *;
    ToAppAppend(a, b);
    SentByAppend(a, b);
    FromUpstreamAppend(a, b);
  }

  lemma {:induction false} ToAppAppend(a: seq<Step>, b: seq<Step>)
    ensures ToApp(a + b) == ToApp(a) + ToApp(b)
  {
    if a == [] {
      assert a + b == b;
    } else {
      assert (a + b)[1..] == a[1..] + b;
      ToAppAppend(a[1..], b);
    }
  }

  lemma {:induction false} SentByAppend(a: seq<Step>, b: seq<Step>)
    ensures SentBy(a + b) == SentBy(a) + SentBy(b)
  {
    if a == [] {
      assert a + b == b;
    } else {
      assert (a + b)[1..] == a[1..] + b;
      SentByAppend(a[1..], b);
      var first := if a[0].handling.Forwarded? then [a[0].cmd] else [];
      assert first + (SentBy(a[1..]) + SentBy(b)) == (first + SentBy(a[1..])) + SentBy(b);
    }
  }

  lemma {:induction false} FromUpstreamAppend(a: seq<Step>, b: seq<Step>)
    ensures FromUpstream(a + b) == FromUpstream(a) + FromUpstream(b)
  {
    if a == [] {
      assert a + b == b;
    } else {
      assert (a + b)[1..] == a[1..] + b;
      FromUpstreamAppend(a[1..], b);
    }
  }

  /** The ghost account of all streams after one more step. */
  lemma OneMore(steps: seq<Step>, step: Step, received: Text, sent: Text, up: Text, up': Text)
    requires up == (if step.handling.Forwarded? then step.handling.reply else []) + up'
    ensures received + ToApp(steps + [step]) ==
            (received + ToApp(steps)) + if step.delivered then step.handling.reply else []
    ensures sent + RawBytes(SentBy(steps + [step])) ==
            (sent + RawBytes(SentBy(steps))) + if step.handling.Forwarded? then step.cmd.raw else []
    ensures FromUpstream(steps + [step]) + up' == FromUpstream(steps) + up
  {
    hide *;
    var c := if step.handling.Forwarded? then [step.cmd] else [];
    StepsAppend(steps, [step]);
    SingleStep(step);
    RawBytesAppend(SentBy(steps), c);
  }

  lemma SingleStep(step: Step)
    ensures ToApp([step]) == if step.delivered then step.handling.reply else []
    ensures FromUpstream([step]) == if step.handling.Forwarded? then step.handling.reply else []
    ensures var c := if step.handling.Forwarded? then [step.cmd] else [];
            SentBy([step]) == c && RawBytes(c) == if step.handling.Forwarded? then step.cmd.raw else []
  {
    assert [step][1..] == [] && ToApp([]) == [] && FromUpstream([]) == [] && SentBy([]) == [];
    assert RawBytes([step.cmd]) == step.cmd.raw + RawBytes([]);
  }

  lemma HandleUses(cmd: Command, engine: Engine, up: Text, resp3: bool)
    requires !engine.Unavailable? && Handle(cmd, engine, up, resp3).Done?
    ensures var h := Handle(cmd, engine, up, resp3);
            up == (if h.value.Forwarded? then h.value.reply else []) + up[h.used..]
  {
    hide ParseReply;
  }

  lemma FollowsMeans<T>(spec: Parsed<T>, r: Result<T>, before: Text, after: Text)
    requires Follows(spec, r, before, after)
    ensures r.Err? ==> spec == Fail(r.error)
    ensures r.Ok? ==> spec.Done? && spec.value == r.value && spec.used <= |before| && after == before[spec.used..]
  {}

  lemma RefuseMeans(engine: Engine)
    ensures engine.RefuseConnections() <==> engine.Unavailable?
  {}

  /** One round of the specification, case by case. */
  lemma RunStep(app: Text, up: Text, i: nat, room: nat, resp3: bool, env: Schedule)
    ensures var t := Run(app, up, i, room, resp3, env);
            if env.cancelled(i) then t == Trace([], Cancelled)
            else
              match ParseCommand(app)
              case Fail(e) => t == Trace([], ReadFailed(e))
              case Done(cmd, n) =>
                1 <= n <= |app| &&
                if env.engine(i).RefuseConnections() then t == Trace([], EngineRefuses(cmd))
                else
                  !env.engine(i).Unavailable? &&
                  match Handle(cmd, env.engine(i), up, resp3)
                  case Fail(e) => t == Trace([], LostUpstream(cmd, e))
                  case Done(handling, used) =>
                    used <= |up| &&
                    var step := Step(cmd, handling, room > 0);
                    t == if room == 0 && !handling.Rejected? then Trace([step], AppGone)
                         else
                           Cons(step, Run(app[n..], up[used..], i + 1, if room > 0 then room - 1 else 0,
                                          Negotiate(cmd, handling, resp3), env))
  {
    hide ParseCommand, Handle, Negotiate;
  }
}
