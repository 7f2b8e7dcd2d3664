/** What an application sees of a proxied Redis: transparency without faults, and with faults the
    refinement of a Redis that answers nil for some keys and refuses some commands. */
module Masking {
  import opened Bytes
  import opened Streams
  import opened Replies
  import opened ReplyTrees
  import opened Commands
  import opened Faults
  import opened Handler

  // ---------------------------------------------------------------- every run, every schedule

  /** The i-th reply answers the i-th command and is exactly one frame; the application gets precisely the
      first `room` of them. */
  ghost predicate Answers(steps: seq<Step>, cmds: seq<Command>, room: nat) {
    && |steps| <= |cmds|
    && forall k | 0 <= k < |steps| ::
         && steps[k].cmd == cmds[k]
         && IsFrame(steps[k].handling.reply)
         && (steps[k].handling.Forwarded? ==> ParseReply(steps[k].handling.reply, 0).value == steps[k].handling.kind)
         && (steps[k].delivered <==> k < room)
         && (!steps[k].delivered && !steps[k].handling.Rejected? ==> k == |steps| - 1)
  }

  lemma {:induction false} RunAnswers(app: Text, up: Text, i: nat, room: nat, resp3: bool, env: Schedule)
    ensures Answers(Run(app, up, i, room, resp3, env).steps, ReadAll(app), room)
    decreases |app|
  {
    hide Run, Handle, ParseCommand, ParseReply, Negotiate, IsFrame;
    RunStep(app, up, i, room, resp3, env);
    ReadAllStep(app);
    if !env.cancelled(i) && ParseCommand(app).Done? && !env.engine(i).RefuseConnections() {
      var cmd, n := ParseCommand(app).value, ParseCommand(app).used;
      var h := Handle(cmd, env.engine(i), up, resp3);
      if h.Done? {
        HandleIsFrame(cmd, env.engine(i), up, resp3);
        if room > 0 || h.value.Rejected? {
          RunAnswers(app[n..], up[h.used..], i + 1, if room > 0 then room - 1 else 0,
                     Negotiate(cmd, h.value, resp3), env);
        }
      }
    }
  }

  /** Under every schedule the recorder is shown the commands of the application in order, each once, whether
      it was forwarded, answered or dropped; and all of them, if the loop ends because no more can be read. */
  lemma {:induction false} ObservedIsRead(app: Text, up: Text, i: nat, room: nat, resp3: bool, env: Schedule)
    ensures var t := Run(app, up, i, room, resp3, env);
            Observed(t) <= ReadAll(app) && (t.stop.ReadFailed? ==> Observed(t) == ReadAll(app))
    decreases |app|
  {
    hide Run, Handle, ParseCommand, ParseReply, Negotiate, Observed;
    RunStep(app, up, i, room, resp3, env);
    ReadAllStep(app);
    ObservedStep(Run(app, up, i, room, resp3, env));
    if !env.cancelled(i) && ParseCommand(app).Done? && !env.engine(i).RefuseConnections() {
      var cmd, n := ParseCommand(app).value, ParseCommand(app).used;
      var h := Handle(cmd, env.engine(i), up, resp3);
      if h.Done? && (room > 0 || h.value.Rejected?) {
        ObservedIsRead(app[n..], up[h.used..], i + 1, if room > 0 then room - 1 else 0,
                       Negotiate(cmd, h.value, resp3), env);
      }
    }
  }

  lemma ObservedStep(t: Trace)
    ensures t.steps == [] ==>
              Observed(t) == if t.stop.EngineRefuses? || t.stop.LostUpstream? then [t.stop.cmd] else []
    ensures t.steps != [] ==> Observed(t) == [t.steps[0].cmd] + Observed(Trace(t.steps[1..], t.stop))
    ensures |t.steps| == 1 && t.stop.AppGone? ==> Observed(t) == [t.steps[0].cmd]
    ensures forall step, rest :: t == Cons(step, rest) ==> Trace(t.steps[1..], t.stop) == rest
  {
    if t.steps != [] {
      assert CommandsOf(t.steps) == [t.steps[0].cmd] + CommandsOf(t.steps[1..]);
    }
  }

  lemma ReadAllStep(app: Text)
    ensures var p := ParseCommand(app);
            ReadAll(app) == if p.Fail? then [] else [p.value] + ReadAll(app[p.used..])
  {
    hide ParseCommand;
  }

  lemma HandleIsFrame(cmd: Command, engine: Engine, up: Text, resp3: bool)
    requires !engine.Unavailable? && Handle(cmd, engine, up, resp3).Done?
    ensures var h := Handle(cmd, engine, up, resp3);
            && IsFrame(h.value.reply)
            && (h.value.Forwarded? ==>
                  h.value.reply == up[..h.used] && ParseReply(h.value.reply, 0) == Done(h.value.kind, h.used))
  {
    hide ParseReply, NilReply, ErrorReply;
    if Rejects(engine, cmd) {
      UnsupportedNamesAreShort(cmd.name);
      ErrorReplyIsFrame(Ascii("cacheproof unsupported command under fault injection: ") + cmd.name);
    } else if engine.Decide(cmd).ReplaceWithMiss? {
      NilReplyIsFrame(resp3);
    } else {
      var n := ParseReply(up, 0).used;
      SelfDelimiting(up, [], 0);
      assert up[..n] + [] == up[..n];
    }
  }

  lemma UnsupportedNamesAreShort(name: Text)
    requires name in UNSUPPORTED
    ensures |name| <= 10
  {}

  // ---------------------------------------------------------------- no faults: transparency

  /** With no fault engine the proxy adds nothing, drops nothing and changes nothing: the bytes sent
      upstream are the consumed application bytes, and the bytes sent to the application are the consumed
      upstream bytes, unless and until the application goes away. */
  lemma {:induction false} PassThroughIsTransparent(
    app: Text, up: Text, i: nat, room: nat, resp3: bool, env: Schedule)
    requires forall k: nat :: k >= i ==> env.engine(k) == PassThrough
    ensures var t := Run(app, up, i, room, resp3, env);
            && RawBytes(Sent(t)) <= app
            && FromUpstream(t.steps) <= up
            && ToApp(t.steps) <= FromUpstream(t.steps)
            && (!t.stop.AppGone? ==> ToApp(t.steps) == FromUpstream(t.steps))
            && (t.stop.ReadFailed? ==> ParseCommand(app[|RawBytes(Sent(t))|..]) == Fail(t.stop.error))
    decreases |app|
  {
    hide Run, ParseCommand, ParseReply, RawBytes, SentBy, FromUpstream, ToApp;
    RunStep(app, up, i, room, resp3, env);
    var t := Run(app, up, i, room, resp3, env);
    NoSteps();
    assert app[0..] == app;
    if !env.cancelled(i) && ParseCommand(app).Done? {
      var cmd, n := ParseCommand(app).value, ParseCommand(app).used;
      NothingElse(cmd, up, resp3);
      var h := Handle(cmd, PassThrough, up, resp3);
      if h.Done? {
        var step := Step(cmd, h.value, room > 0);
        ForwardedStep(step);
        if room > 0 {
          var rest := Run(app[n..], up[h.used..], i + 1, room - 1, Negotiate(cmd, h.value, resp3), env);
          PassThroughIsTransparent(app[n..], up[h.used..], i + 1, room - 1, Negotiate(cmd, h.value, resp3), env);
          ConsStep(step, rest);
          PrefixStep(cmd.raw, RawBytes(Sent(rest)), app, n);
          PrefixStep(h.value.reply, FromUpstream(rest.steps), up, h.used);
        }
      }
    }
  }

  lemma NoSteps()
    ensures ToApp([]) == [] && FromUpstream([]) == [] && SentBy([]) == [] && RawBytes([]) == []
    ensures forall c: Command :: RawBytes([c]) == RawBytes([] + [c]) == RawBytes([c] + []) == c.raw
    ensures RawBytes([] + []) == []
  {
    forall c: Command
      ensures RawBytes([c]) == RawBytes([] + [c]) == RawBytes([c] + []) == c.raw
    {
      assert [c][1..] == [] && [] + [c] == [c] + [] == [c];
    }
  }

  lemma NothingElse(cmd: Command, up: Text, resp3: bool)
    ensures var h := Handle(cmd, PassThrough, up, resp3);
            h.Done? ==> h.value.Forwarded? && h.value.reply == up[..h.used]
  {
    hide ParseReply;
  }

  lemma ForwardedStep(step: Step)
    requires step.handling.Forwarded?
    ensures SentBy([step]) == [step.cmd] && FromUpstream([step]) == step.handling.reply
    ensures ToApp([step]) == if step.delivered then step.handling.reply else []
  {
    SingleStep(step);
  }

  lemma ConsStep(step: Step, t: Trace)
    requires step.handling.Forwarded? && step.delivered
    ensures RawBytes(Sent(Cons(step, t))) == step.cmd.raw + RawBytes(Sent(t))
    ensures FromUpstream(Cons(step, t).steps) == step.handling.reply + FromUpstream(t.steps)
    ensures ToApp(Cons(step, t).steps) == step.handling.reply + ToApp(t.steps)
  {
    StepsAppend([step], t.steps);
    SingleStep(step);
    assert Sent(Cons(step, t)) == [step.cmd] + Sent(t);
    RawBytesAppend([step.cmd], Sent(t));
  }

  lemma PrefixStep(a: Text, b: Text, s: Text, n: nat)
    requires n <= |s| && a == s[..n] && b <= s[n..]
    ensures a + b <= s
    ensures s[n..][|b|..] == s[|a + b|..]
  {
    assert s == a + s[n..];
  }

  // ---------------------------------------------------------------- faults: a masked Redis

  /** A deterministic Redis: what a command's bytes do to its state, its reply, and the protocol it speaks
      on the connection. */
  datatype Server<!S> = Server(step: (S, Text) -> (S, Text), resp3: S -> bool)

  ghost predicate IsWhole(c: Command) {
    ParseCommand(c.raw) == Done(c, |c.raw|)
  }

  /** The two kinds of error replies of the protocol: simple and bulk errors. */
  predicate IsError(kind: byte) {
    kind == MINUS || kind == BANG
  }

  /** It answers every command with one frame, and changes protocol exactly when it accepts a HELLO 2 or 3, that
      is, answers it with no error of either kind. */
  ghost predicate Lawful<S(!new)>(server: Server<S>) {
    forall st: S, c: Command :: IsWhole(c) ==> LawfulStep(server, st, c)
  }

  ghost predicate LawfulStep<S>(server: Server<S>, st: S, c: Command) {
    var (st', reply) := server.step(st, c.raw);
    && IsFrame(reply)
    && server.resp3(st') ==
       if HelloProtocol(c).Some? && !IsError(ParseReply(reply, 0).value) then HelloProtocol(c).value
       else server.resp3(st)
  }

  /** There are such servers: one that accepts every command, and every HELLO. */
  lemma AcceptingServerIsLawful()
    ensures Lawful(AcceptingServer())
  {
    hide ParseCommand, ParseReply, HelloProtocol;
    var t := Simple(PLUS, CRLF);
    assert WellFormed(t) && Serialize(t) == [PLUS] + CRLF;
    ReadsTree(t, [], 0);
    assert Serialize(t) + [] == Serialize(t);
  }

  function AcceptingServer(): Server<bool> {
    Server((resp3: bool, raw: Text) =>
             var p := ParseCommand(raw);
             (if p.Done? && HelloProtocol(p.value).Some? then HelloProtocol(p.value).value else resp3,
              [PLUS] + CRLF),
           (resp3: bool) => resp3)
  }

  /** The masked Redis: it refuses unsupported commands, answers nil in the protocol the connection speaks
      for the keys to be missed, both without any effect, and is the real one otherwise. */
  function MaskedStep<S>(server: Server<S>, engine: Engine, st: S, c: Command): (S, Text) {
    if Rejects(engine, c) then (st, RejectReply(c))
    else if engine.Decide(c).ReplaceWithMiss? then (st, NilReply(server.resp3(st)))
    else server.step(st, c.raw)
  }

  predicate Stops(i: nat, env: Schedule) {
    env.cancelled(i) || env.engine(i).Unavailable?
  }

  /** The masked Redis at work on a list of commands: its replies and its final state. */
  function Masked<S>(server: Server<S>, st: S, cmds: seq<Command>, i: nat, env: Schedule): (seq<Text>, S) {
    if cmds == [] || Stops(i, env) then ([], st)
    else
      var (st', reply) := MaskedStep(server, env.engine(i), st, cmds[0]);
      var (replies, final) := Masked(server, st', cmds[1..], i + 1, env);
      ([reply] + replies, final)
  }

  /** The commands that are neither refused nor answered with nil. */
  function Kept(cmds: seq<Command>, i: nat, env: Schedule): seq<Command> {
    if cmds == [] || Stops(i, env) then []
    else
      (if Rejects(env.engine(i), cmds[0]) || env.engine(i).Decide(cmds[0]).ReplaceWithMiss? then [] else [cmds[0]])
      + Kept(cmds[1..], i + 1, env)
  }

  /** The real Redis at work on a list of commands: the bytes it sends back and its final state. */
  function Serve<S>(server: Server<S>, st: S, cmds: seq<Command>): (Text, S) {
    if cmds == [] then ([], st)
    else
      var (st', reply) := server.step(st, cmds[0].raw);
      var (replies, final) := Serve(server, st', cmds[1..]);
      (reply + replies, final)
  }

  function RepliesOf(steps: seq<Step>): seq<Text> {
    seq(|steps|, k requires 0 <= k < |steps| => steps[k].handling.reply)
  }

  /** A HELLO that would change the protocol, and that the server refuses with a bulk error. */
  predicate Misleads<S>(server: Server<S>, st: S, c: Command) {
    && HelloProtocol(c).Some? && HelloProtocol(c).value != server.resp3(st)
    && ParseReply(server.step(st, c.raw).1, 0) == Done(BANG, |server.step(st, c.raw).1|)
  }

  /** None of the commands that reach the server does. */
  predicate Steady<S>(server: Server<S>, st: S, cmds: seq<Command>, i: nat, env: Schedule)
    decreases |cmds|
  {
    cmds == [] || Stops(i, env) ||
    (SteadyStep(server, env.engine(i), st, cmds[0])
     && Steady(server, MaskedStep(server, env.engine(i), st, cmds[0]).0, cmds[1..], i + 1, env))
  }

  predicate SteadyStep<S>(server: Server<S>, engine: Engine, st: S, c: Command) {
    Rejects(engine, c) || engine.Decide(c).ReplaceWithMiss? || !Misleads(server, st, c)
  }

  /** The proxy's idea of the protocol is the server's, before the steps and after each of them. */
  predicate Agree<S>(server: Server<S>, st: S, steps: seq<Step>, resp3: bool)
    decreases |steps|
  {
    && resp3 == server.resp3(st)
    && (steps != [] ==>
          Agree(server, StateAfter(server, st, steps[0]), steps[1..],
                Negotiate(steps[0].cmd, steps[0].handling, resp3)))
  }

  function StateAfter<S>(server: Server<S>, st: S, step: Step): S {
    if step.handling.Forwarded? then server.step(st, step.cmd.raw).0 else st
  }

  /** What a trace has to do with the masked Redis: for the commands that were handled, what reached the real
      Redis is exactly the kept ones, and the two servers end in the same state; if the proxy starts with the
      right idea of the protocol, it keeps it exactly if no command misleads it, and then its replies are those
      of the masked Redis, command by command, with every synthetic nil in the protocol spoken at that point.
      Unless the application has gone, all commands were handled. */
  ghost predicate Refines<S>(
    server: Server<S>, st: S, t: Trace, cmds: seq<Command>, i: nat, resp3: bool, env: Schedule)
  {
    && |t.steps| <= |cmds|
    && Sent(t) == Kept(cmds[..|t.steps|], i, env)
    && FromUpstream(t.steps) == Serve(server, st, Sent(t)).0
    && Serve(server, st, Sent(t)).1 == Masked(server, st, cmds[..|t.steps|], i, env).1
    && (resp3 == server.resp3(st) ==>
          (Agree(server, st, t.steps, resp3) <==> Steady(server, st, cmds[..|t.steps|], i, env)))
    && (resp3 == server.resp3(st) && Steady(server, st, cmds[..|t.steps|], i, env) ==>
          RepliesOf(t.steps) == Masked(server, st, cmds[..|t.steps|], i, env).0)
    && (t.stop.AppGone? || |t.steps| == |cmds| || Stops(i + |t.steps|, env))
  }

  /** The proxied Redis is the masked Redis, for every command stream, every schedule of engines, every lawful
      upstream, and however soon the application goes away. */
  lemma {:induction false} MaskedRefinement<S(!new)>(
    server: Server<S>, st: S, app: Text, up: Text, x: Text, i: nat, room: nat, resp3: bool, env: Schedule)
    requires Lawful(server)
    requires up == Serve(server, st, Kept(ReadAll(app), i, env)).0 + x
    ensures Refines(server, st, Run(app, up, i, room, resp3, env), ReadAll(app), i, resp3, env)
    decreases |app|
  {
    hide *;
    RunStep(app, up, i, room, resp3, env);
    ReadAllStep(app);
    StopsMeans(i, env);
    var cmds := ReadAll(app);
    var p := ParseCommand(app);
    if p.Fail? || env.cancelled(i) || env.engine(i).RefuseConnections() {
      NothingRefines(server, st, Run(app, up, i, room, resp3, env).stop, cmds, i, resp3, env);
    } else {
      var cmd, rest, engine := p.value, app[p.used..], env.engine(i);
      RawIsWhole(app);
      IsWholeMeans(cmd);
      LawfulMeans(server, st, cmd);
      var (st', reply) := MaskedStep(server, engine, st, cmd);
      var h, up' := HandledStep(server, st, cmd, engine, ReadAll(rest), up, x, i, resp3, env);
      var step, resp3' := Step(cmd, h, room > 0), Negotiate(cmd, h, resp3);
      ProtocolStep(server, st, step, engine, resp3);
      if room == 0 && !h.Rejected? {
        GoneRefines(server, st', ReadAll(rest), i + 1, resp3', env);
        ConsRefines(server, st, step, Trace([], AppGone), ReadAll(rest), i, resp3, env);
        assert Cons(step, Trace([], AppGone)) == Trace([step], AppGone) by { ConsMeans(step, AppGone); }
      } else {
        var room' := if room > 0 then room - 1 else 0;
        MaskedRefinement(server, st', rest, up', x, i + 1, room', resp3', env);
        ConsRefines(server, st, step, Run(rest, up', i + 1, room', resp3', env), ReadAll(rest), i, resp3, env);
      }
    }
  }

  lemma ConsMeans(step: Step, stop: Stop)
    ensures Cons(step, Trace([], stop)) == Trace([step], stop)
  {}

  /** How one command is handled, and what the upstream has left to send. */
  lemma HandledStep<S(!new)>(
    server: Server<S>, st: S, cmd: Command, engine: Engine, others: seq<Command>, up: Text, x: Text, i: nat,
    resp3: bool, env: Schedule)
    returns (h: Handling, up': Text)
    requires !Stops(i, env) && engine == env.engine(i) && !engine.Unavailable?
    requires IsFrame(server.step(st, cmd.raw).1)
    requires up == Serve(server, st, Kept([cmd] + others, i, env)).0 + x
    ensures var (st', reply) := MaskedStep(server, engine, st, cmd);
            && Handle(cmd, engine, up, resp3).Done? && Handle(cmd, engine, up, resp3).value == h
            && up' == up[Handle(cmd, engine, up, resp3).used..]
            && up' == Serve(server, st', Kept(others, i + 1, env)).0 + x
            && HandledAs(server, st, cmd, engine, h, resp3)
  {
    hide *;
    assert ([cmd] + others)[0] == cmd && ([cmd] + others)[1..] == others;
    KeptUnfold([cmd] + others, i, env);
    if Rejects(engine, cmd) || engine.Decide(cmd).ReplaceWithMiss? {
      Synthetic(cmd, engine, up, resp3);
      MaskedSynthetic(server, engine, st, cmd);
      h, up' := Handle(cmd, engine, up, resp3).value, up;
      assert up[0..] == up;
      HandledMeans(server, st, cmd, engine, h, resp3);
    } else {
      var (st', reply) := server.step(st, cmd.raw);
      var more := Serve(server, st', Kept(others, i + 1, env)).0;
      ServeUnfold(server, st, cmd, Kept(others, i + 1, env));
      MaskedReal(server, engine, st, cmd);
      assert up == reply + (more + x);
      ForwardsReply(cmd, engine, up, reply, more + x, resp3);
      h, up' := Handle(cmd, engine, up, resp3).value, more + x;
      HandledMeans(server, st, cmd, engine, h, resp3);
    }
  }

  /** A synthetic answer, in the protocol the proxy believes in, or the server's own reply. */
  ghost predicate HandledAs<S>(server: Server<S>, st: S, cmd: Command, engine: Engine, h: Handling, resp3: bool) {
    if Rejects(engine, cmd) || engine.Decide(cmd).ReplaceWithMiss? then
      !h.Forwarded? && h.reply == if Rejects(engine, cmd) then RejectReply(cmd) else NilReply(resp3)
    else
      h.Forwarded? && h.reply == server.step(st, cmd.raw).1 && ParseReply(h.reply, 0) == Done(h.kind, |h.reply|)
  }

  lemma HandledMeans<S>(server: Server<S>, st: S, cmd: Command, engine: Engine, h: Handling, resp3: bool)
    ensures HandledAs(server, st, cmd, engine, h, resp3) <==>
            if Rejects(engine, cmd) || engine.Decide(cmd).ReplaceWithMiss? then
              !h.Forwarded? && h.reply == if Rejects(engine, cmd) then RejectReply(cmd) else NilReply(resp3)
            else
              h.Forwarded? && h.reply == server.step(st, cmd.raw).1 && ParseReply(h.reply, 0) == Done(h.kind, |h.reply|)
  {
    hide Rejects, RejectReply, NilReply, ParseReply;
  }

  /** One step: its state and reply are the masked Redis's, the reply if the proxy has the right idea of the
      protocol; and it keeps that idea exactly if the step does not mislead it. */
  lemma ProtocolStep<S(!new)>(server: Server<S>, st: S, step: Step, engine: Engine, resp3: bool)
    requires HandledAs(server, st, step.cmd, engine, step.handling, resp3)
    requires Lawful(server) && IsWhole(step.cmd)
    ensures var (st', reply) := MaskedStep(server, engine, st, step.cmd);
            && StateAfter(server, st, step) == st'
            && (step.handling.Forwarded? <==> !(Rejects(engine, step.cmd) || engine.Decide(step.cmd).ReplaceWithMiss?))
            && (step.handling.Forwarded? ==> step.handling.reply == server.step(st, step.cmd.raw).1)
            && (resp3 == server.resp3(st) ==>
                  && step.handling.reply == reply
                  && (Negotiate(step.cmd, step.handling, resp3) == server.resp3(st') <==>
                      SteadyStep(server, engine, st, step.cmd)))
  {
    hide Rejects, RejectReply, NilReply, ParseReply, IsWhole, HelloProtocol;
    assert LawfulStep(server, st, step.cmd);
  }

  lemma NothingRefines<S>(
    server: Server<S>, st: S, stop: Stop, cmds: seq<Command>, i: nat, resp3: bool, env: Schedule)
    requires cmds == [] || Stops(i, env)
    requires !stop.LostUpstream?
    ensures Refines(server, st, Trace([], stop), cmds, i, resp3, env)
  {
    assert cmds[..0] == [];
  }

  lemma GoneRefines<S>(server: Server<S>, st: S, cmds: seq<Command>, i: nat, resp3: bool, env: Schedule)
    ensures Refines(server, st, Trace([], AppGone), cmds, i, resp3, env)
  {
    assert cmds[..0] == [];
  }

  lemma ConsRefines<S(!new)>(
    server: Server<S>, st: S, step: Step, t: Trace, others: seq<Command>, i: nat, resp3: bool, env: Schedule)
    requires !Stops(i, env) && Lawful(server) && IsWhole(step.cmd)
    requires HandledAs(server, st, step.cmd, env.engine(i), step.handling, resp3)
    requires Refines(server, MaskedStep(server, env.engine(i), st, step.cmd).0, t, others, i + 1,
                     Negotiate(step.cmd, step.handling, resp3), env)
    ensures Refines(server, st, Cons(step, t), [step.cmd] + others, i, resp3, env)
  {
    hide Rejects, MaskedStep, Serve, Masked, Kept, Steady, SteadyStep, Agree, Negotiate, Lawful, IsWhole, HandledAs,
         Sent, FromUpstream, RepliesOf, Cons, StateAfter, Stops;
    ProtocolStep(server, st, step, env.engine(i), resp3);
    var done := [step.cmd] + others[..|t.steps|];
    OneMoreStep(step, t);
    assert ([step.cmd] + others)[..|t.steps| + 1] == done;
    assert done[0] == step.cmd && done[1..] == others[..|t.steps|];
    MaskedUnfold(server, st, done, i, env);
    KeptUnfold(done, i, env);
    SteadyUnfold(server, st, done, i, env);
    AgreeUnfold(server, st, step, t, resp3);
    if step.handling.Forwarded? {
      MaskedReal(server, env.engine(i), st, step.cmd);
      ServeUnfold(server, st, step.cmd, Sent(t));
    } else {
      MaskedSynthetic(server, env.engine(i), st, step.cmd);
      assert [] + Sent(t) == Sent(t) && [] + FromUpstream(t.steps) == FromUpstream(t.steps);
    }
  }

  lemma SteadyUnfold<S>(server: Server<S>, st: S, cmds: seq<Command>, i: nat, env: Schedule)
    requires cmds != [] && !Stops(i, env)
    ensures Steady(server, st, cmds, i, env) <==>
            && SteadyStep(server, env.engine(i), st, cmds[0])
            && Steady(server, MaskedStep(server, env.engine(i), st, cmds[0]).0, cmds[1..], i + 1, env)
  {
    hide SteadyStep, MaskedStep;
  }

  lemma AgreeUnfold<S>(server: Server<S>, st: S, step: Step, t: Trace, resp3: bool)
    ensures Agree(server, st, Cons(step, t).steps, resp3) <==>
            && resp3 == server.resp3(st)
            && Agree(server, StateAfter(server, st, step), t.steps, Negotiate(step.cmd, step.handling, resp3))
    ensures Agree(server, StateAfter(server, st, step), t.steps, Negotiate(step.cmd, step.handling, resp3)) ==>
              Negotiate(step.cmd, step.handling, resp3) == server.resp3(StateAfter(server, st, step))
  {
    hide Negotiate, StateAfter;
    assert Cons(step, t).steps[1..] == t.steps;
  }

  lemma StopsMeans(i: nat, env: Schedule)
    ensures Stops(i, env) <==> env.cancelled(i) || env.engine(i).RefuseConnections()
  {}

  lemma IsWholeMeans(c: Command)
    requires ParseCommand(c.raw) == Done(c, |c.raw|)
    ensures IsWhole(c)
  {}

  lemma MaskedUnfold<S>(server: Server<S>, st: S, cmds: seq<Command>, i: nat, env: Schedule)
    requires cmds != [] && !Stops(i, env)
    ensures var (st', reply) := MaskedStep(server, env.engine(i), st, cmds[0]);
            var more := Masked(server, st', cmds[1..], i + 1, env);
            Masked(server, st, cmds, i, env) == ([reply] + more.0, more.1)
  {
    hide MaskedStep;
  }

  lemma KeptUnfold(cmds: seq<Command>, i: nat, env: Schedule)
    requires cmds != [] && !Stops(i, env)
    ensures Kept(cmds, i, env) ==
            (if Rejects(env.engine(i), cmds[0]) || env.engine(i).Decide(cmds[0]).ReplaceWithMiss? then []
             else [cmds[0]])
            + Kept(cmds[1..], i + 1, env)
    ensures [] + Kept(cmds[1..], i + 1, env) == Kept(cmds[1..], i + 1, env)
  {
    hide Rejects;
  }

  lemma Synthetic(cmd: Command, engine: Engine, up: Text, resp3: bool)
    requires !engine.Unavailable? && (Rejects(engine, cmd) || engine.Decide(cmd).ReplaceWithMiss?)
    ensures var h := Handle(cmd, engine, up, resp3);
            && h.Done? && h.used == 0 && !h.value.Forwarded?
            && h.value.reply == (if Rejects(engine, cmd) then RejectReply(cmd) else NilReply(resp3))
            && Negotiate(cmd, h.value, resp3) == resp3
  {
    hide Rejects, RejectReply, NilReply;
  }

  lemma MaskedSynthetic<S>(server: Server<S>, engine: Engine, st: S, cmd: Command)
    requires Rejects(engine, cmd) || engine.Decide(cmd).ReplaceWithMiss?
    ensures MaskedStep(server, engine, st, cmd) ==
            (st, if Rejects(engine, cmd) then RejectReply(cmd) else NilReply(server.resp3(st)))
  {
    hide Rejects, RejectReply, NilReply;
  }

  lemma MaskedReal<S>(server: Server<S>, engine: Engine, st: S, cmd: Command)
    requires !(Rejects(engine, cmd) || engine.Decide(cmd).ReplaceWithMiss?)
    ensures MaskedStep(server, engine, st, cmd) == server.step(st, cmd.raw)
  {
    hide Rejects;
  }

  lemma LawfulMeans<S(!new)>(server: Server<S>, st: S, cmd: Command)
    requires Lawful(server) && IsWhole(cmd)
    ensures IsFrame(server.step(st, cmd.raw).1)
  {
    hide IsFrame, ParseReply, HelloProtocol, IsWhole;
    assert LawfulStep(server, st, cmd);
  }

  lemma ServeUnfold<S>(server: Server<S>, st: S, cmd: Command, others: seq<Command>)
    ensures var (st', reply) := server.step(st, cmd.raw);
            var more := Serve(server, st', others);
            Serve(server, st, [cmd] + others) == (reply + more.0, more.1)
  {
    assert ([cmd] + others)[1..] == others;
  }

  lemma ForwardsReply(cmd: Command, engine: Engine, up: Text, reply: Text, rest: Text, resp3: bool)
    requires !engine.Unavailable? && !(Rejects(engine, cmd) || engine.Decide(cmd).ReplaceWithMiss?)
    requires IsFrame(reply) && up == reply + rest
    ensures Handle(cmd, engine, up, resp3) == Done(Forwarded(reply, ParseReply(reply, 0).value), |reply|)
    ensures up[|reply|..] == rest
    ensures ParseReply(reply, 0) == Done(ParseReply(reply, 0).value, |reply|)
  {
    hide Rejects, ParseReply;
    FrameThen(reply, rest);
  }

  lemma OneMoreStep(step: Step, t: Trace)
    ensures |Cons(step, t).steps| == |t.steps| + 1 && Cons(step, t).stop == t.stop
    ensures RepliesOf(Cons(step, t).steps) == [step.handling.reply] + RepliesOf(t.steps)
    ensures Sent(Cons(step, t)) == (if step.handling.Forwarded? then [step.cmd] else []) + Sent(t)
    ensures FromUpstream(Cons(step, t).steps) ==
            (if step.handling.Forwarded? then step.handling.reply else []) + FromUpstream(t.steps)
  {
    assert Cons(step, t).steps[1..] == t.steps;
  }

  /** Read back from the bytes sent upstream, the commands are the ones that were sent. */
  lemma {:induction false} UpstreamReadsSame(cmds: seq<Command>)
    requires forall k | 0 <= k < |cmds| :: IsWhole(cmds[k])
    ensures ReadAll(RawBytes(cmds)) == cmds
  {
    if cmds == [] {
      assert ParseCommand([]).Fail?;
    } else {
      var c, rest := cmds[0], RawBytes(cmds[1..]);
      CommandSelfDelimiting(c.raw, rest);
      assert c.raw[..|c.raw|] == c.raw && (c.raw + rest)[|c.raw|..] == rest;
      UpstreamReadsSame(cmds[1..]);
    }
  }

  lemma {:induction false} ReadAllWhole(app: Text)
    ensures forall k | 0 <= k < |ReadAll(app)| :: IsWhole(ReadAll(app)[k])
  {
    hide ParseCommand;
    ReadAllStep(app);
    if ParseCommand(app).Done? {
      RawIsWhole(app);
      ReadAllWhole(app[ParseCommand(app).used..]);
    }
  }

  // ---------------------------------------------------------------- one engine: a masked Redis is a Redis

  /** The masked Redis as a Redis of its own. */
  function Mask<S>(server: Server<S>, engine: Engine): Server<S> {
    Server((st: S, raw: Text) => var p := ParseCommand(raw);
                                 if p.Done? then MaskedStep(server, engine, st, p.value) else server.step(st, raw),
           server.resp3)
  }

  lemma MaskStep<S>(server: Server<S>, engine: Engine, st: S, c: Command)
    requires IsWhole(c)
    ensures Mask(server, engine).step(st, c.raw) == MaskedStep(server, engine, st, c)
    ensures Mask(server, engine).resp3 == server.resp3
  {
    hide ParseCommand, MaskedStep;
  }

  /** Masking keeps a Redis lawful: one frame per command, and only an accepted HELLO changes the protocol. */
  lemma MaskIsLawful<S(!new)>(server: Server<S>, engine: Engine)
    requires Lawful(server)
    ensures Lawful(Mask(server, engine))
  {
    hide IsWhole, IsFrame, ParseReply, HelloProtocol, Mask, MaskedStep, Rejects, RejectReply, NilReply, ErrorReply;
    forall st: S, c: Command | IsWhole(c)
      ensures LawfulStep(Mask(server, engine), st, c)
    {
      MaskStep(server, engine, st, c);
      assert LawfulStep(server, st, c);
      if Rejects(engine, c) || engine.Decide(c).ReplaceWithMiss? {
        MaskedSynthetic(server, engine, st, c);
        SyntheticReply(engine, c, server.resp3(st));
      } else {
        MaskedReal(server, engine, st, c);
      }
    }
  }

  /** A synthetic reply is one frame, and is an error or answers something that is no HELLO. */
  lemma SyntheticReply(engine: Engine, c: Command, resp3: bool)
    requires Rejects(engine, c) || engine.Decide(c).ReplaceWithMiss?
    ensures var reply := if Rejects(engine, c) then RejectReply(c) else NilReply(resp3);
            IsFrame(reply) && (ParseReply(reply, 0).value == MINUS || HelloProtocol(c).None?)
  {
    hide IsFrame, ParseReply, NilReply, ErrorReply;
    if Rejects(engine, c) {
      UnsupportedNamesAreShort(c.name);
      ErrorReplyIsFrame(Ascii("cacheproof unsupported command under fault injection: ") + c.name);
    } else {
      NilReplyIsFrame(resp3);
      ReadsAreNotHello(c.name);
    }
  }

  lemma ReadsAreNotHello(name: Text)
    requires name in READ_COMMANDS
    ensures name != Ascii("HELLO")
  {
    assert Ascii("HELLO")[0] == 72 && Ascii("GETEX")[0] == 71;
  }

  lemma {:induction false} MaskedIsServed<S>(
    server: Server<S>, engine: Engine, st: S, cmds: seq<Command>, i: nat, env: Schedule)
    requires forall k | 0 <= k < |cmds| :: IsWhole(cmds[k])
    requires forall k: nat :: !env.cancelled(k) && env.engine(k) == engine
    requires !engine.Unavailable?
    ensures var (replies, final) := Masked(server, st, cmds, i, env);
            Serve(Mask(server, engine), st, cmds) == (Concat(replies), final)
  {
    hide Mask, MaskedStep, IsWhole;
    if cmds == [] {
    } else {
      MaskStep(server, engine, st, cmds[0]);
      var (st', reply) := MaskedStep(server, engine, st, cmds[0]);
      MaskedIsServed(server, engine, st', cmds[1..], i + 1, env);
      var more := Masked(server, st', cmds[1..], i + 1, env).0;
      assert ([reply] + more)[1..] == more;
    }
  }

  lemma {:induction false} DeliveredPrefix(steps: seq<Step>, room: nat)
    requires forall k | 0 <= k < |steps| :: steps[k].delivered <==> k < room
    ensures ToApp(steps) <= Concat(RepliesOf(steps))
    ensures room >= |steps| ==> ToApp(steps) == Concat(RepliesOf(steps))
  {
    if steps == [] {
    } else {
      var room' := if room > 0 then room - 1 else 0;
      DeliveredPrefix(steps[1..], room');
      assert RepliesOf(steps)[1..] == RepliesOf(steps[1..]);
      if room == 0 {
        NoneDelivered(steps);
      } else {
        PrefixStays(steps[0].handling.reply, ToApp(steps[1..]), Concat(RepliesOf(steps[1..])));
      }
    }
  }

  lemma {:induction false} NoneDelivered(steps: seq<Step>)
    requires forall k | 0 <= k < |steps| :: !steps[k].delivered
    ensures ToApp(steps) == []
  {
    if steps == [] {
    } else {
      NoneDelivered(steps[1..]);
    }
  }

  lemma PrefixStays(a: Text, b: Text, c: Text)
    requires b <= c
    ensures a + b <= a + c
  {
    assert a + c == a + b + c[|b|..];
  }

  /** What a server sends for the first commands is how what it sends for all of them begins. */
  lemma {:induction false} ServePrefix<S>(server: Server<S>, st: S, cmds: seq<Command>, n: nat)
    requires n <= |cmds|
    ensures Serve(server, st, cmds[..n]).0 <= Serve(server, st, cmds).0
  {
    if n == 0 {
    } else {
      var (st', reply) := server.step(st, cmds[0].raw);
      assert cmds[..n][1..] == cmds[1..][..n - 1] && cmds[..n][0] == cmds[0];
      ServePrefix(server, st', cmds[1..], n - 1);
      PrefixStays(reply, Serve(server, st', cmds[1..][..n - 1]).0, Serve(server, st', cmds[1..]).0);
    }
  }

  lemma {:induction false} SteadyPrefix<S>(
    server: Server<S>, st: S, cmds: seq<Command>, n: nat, i: nat, env: Schedule)
    requires n <= |cmds| && Steady(server, st, cmds, i, env)
    ensures Steady(server, st, cmds[..n], i, env)
    decreases n
  {
    hide SteadyStep, MaskedStep;
    if n == 0 {
    } else if !Stops(i, env) {
      assert cmds[..n][1..] == cmds[1..][..n - 1];
      SteadyPrefix(server, MaskedStep(server, env.engine(i), st, cmds[0]).0, cmds[1..], n - 1, i + 1, env);
    }
  }

  /** With room for all replies the application never goes. */
  lemma {:induction false} RoomSuffices(app: Text, up: Text, i: nat, room: nat, resp3: bool, env: Schedule)
    requires room >= |ReadAll(app)|
    ensures !Run(app, up, i, room, resp3, env).stop.AppGone?
    decreases |app|
  {
    hide Run, Handle, ParseCommand, Negotiate;
    RunStep(app, up, i, room, resp3, env);
    ReadAllStep(app);
    if !env.cancelled(i) && ParseCommand(app).Done? && !env.engine(i).RefuseConnections() {
      var cmd, n := ParseCommand(app).value, ParseCommand(app).used;
      var h := Handle(cmd, env.engine(i), up, resp3);
      if h.Done? {
        RoomSuffices(app[n..], up[h.used..], i + 1, room - 1, Negotiate(cmd, h.value, resp3), env);
      }
    }
  }

  lemma AnswersMeans(steps: seq<Step>, cmds: seq<Command>, room: nat)
    requires Answers(steps, cmds, room)
    ensures |steps| <= |cmds| && forall k | 0 <= k < |steps| :: steps[k].delivered <==> k < room
  {
    hide IsFrame, ParseReply;
  }

  /** Under one fixed fault engine an application receives, byte for byte, the beginning of what the masked
      Redis sends for its commands, and all of it if it keeps listening; and at every moment the real Redis,
      which reads the bytes sent to it, is in the state the masked one would be in. */
  lemma ProxyIsMaskedRedis<S(!new)>(
    server: Server<S>, engine: Engine, st: S, app: Text, up: Text, x: Text, room: nat, env: Schedule)
    requires Lawful(server) && !server.resp3(st)
    requires forall k: nat :: !env.cancelled(k) && env.engine(k) == engine
    requires !engine.Unavailable?
    requires up == Serve(server, st, Kept(ReadAll(app), 0, env)).0 + x
    ensures var t, mask, cmds := Run(app, up, 0, room, false, env), Mask(server, engine), ReadAll(app);
            && |t.steps| <= |cmds| && (room >= |cmds| ==> |t.steps| == |cmds|)
            && Serve(server, st, ReadAll(RawBytes(Sent(t)))).1 == Serve(mask, st, cmds[..|t.steps|]).1
            && (Steady(server, st, cmds, 0, env) ==>
                  && ToApp(t.steps) <= Serve(mask, st, cmds).0
                  && (room >= |cmds| ==> ToApp(t.steps) == Serve(mask, st, cmds).0))
  {
    hide *;
    var t, cmds := Run(app, up, 0, room, false, env), ReadAll(app);
    MaskedRefinement(server, st, app, up, x, 0, room, false, env);
    RefinesMeans(server, st, t, cmds, 0, false, env);
    var done := cmds[..|t.steps|];
    NeverStops(engine, env);
    ReadAllWhole(app);
    MaskedIsServed(server, engine, st, done, 0, env);
    KeptIsWhole(done, 0, env);
    UpstreamReadsSame(Sent(t));
    RunAnswers(app, up, 0, room, false, env);
    AnswersMeans(t.steps, cmds, room);
    DeliveredPrefix(t.steps, room);
    ServePrefix(Mask(server, engine), st, cmds, |t.steps|);
    if room >= |cmds| {
      RoomSuffices(app, up, 0, room, false, env);
      assert done == cmds;
    }
    if Steady(server, st, cmds, 0, env) {
      SteadyPrefix(server, st, cmds, |t.steps|, 0, env);
    }
  }

  lemma NeverStops(engine: Engine, env: Schedule)
    requires forall k: nat :: !env.cancelled(k) && env.engine(k) == engine
    requires !engine.Unavailable?
    ensures forall i: nat :: !Stops(i, env)
  {}

  lemma RefinesMeans<S>(
    server: Server<S>, st: S, t: Trace, cmds: seq<Command>, i: nat, resp3: bool, env: Schedule)
    requires Refines(server, st, t, cmds, i, resp3, env)
    ensures var done := if |t.steps| <= |cmds| then cmds[..|t.steps|] else cmds;
            && |t.steps| <= |cmds|
            && Sent(t) == Kept(done, i, env)
            && Serve(server, st, Sent(t)).1 == Masked(server, st, done, i, env).1
            && (resp3 == server.resp3(st) ==>
                  (Agree(server, st, t.steps, resp3) <==> Steady(server, st, done, i, env)))
            && (resp3 == server.resp3(st) && Steady(server, st, done, i, env) ==>
                  RepliesOf(t.steps) == Masked(server, st, done, i, env).0)
            && (t.stop.AppGone? || |t.steps| == |cmds| || Stops(i + |t.steps|, env))
  {
    hide Serve, Kept, Steady, Agree, Masked, RepliesOf, Sent, FromUpstream, Stops;
  }

  lemma {:induction false} KeptIsWhole(cmds: seq<Command>, i: nat, env: Schedule)
    requires forall k | 0 <= k < |cmds| :: IsWhole(cmds[k])
    ensures forall k | 0 <= k < |Kept(cmds, i, env)| :: IsWhole(Kept(cmds, i, env)[k])
  {
    hide IsWhole, Rejects;
    if cmds != [] && !Stops(i, env) {
      KeptIsWhole(cmds[1..], i + 1, env);
    }
  }
  // ---------------------------------------------------------------- negotiation

  /** In every run that starts with the right idea of the protocol, the proxy keeps it through all steps if and
      only if no HELLO that would change it was refused by a bulk error. */
  lemma NegotiationExactly<S(!new)>(
    server: Server<S>, st: S, app: Text, up: Text, x: Text, i: nat, room: nat, resp3: bool, env: Schedule)
    requires Lawful(server) && resp3 == server.resp3(st)
    requires up == Serve(server, st, Kept(ReadAll(app), i, env)).0 + x
    ensures var t := Run(app, up, i, room, resp3, env);
            && |t.steps| <= |ReadAll(app)|
            && (Agree(server, st, t.steps, resp3) <==> Steady(server, st, ReadAll(app)[..|t.steps|], i, env))
  {
    hide *;
    MaskedRefinement(server, st, app, up, x, i, room, resp3, env);
    RefinesMeans(server, st, Run(app, up, i, room, resp3, env), ReadAll(app), i, resp3, env);
  }

  /** A bulk error with an empty text. */
  const BULK_ERROR: Text := [BANG] + ([48] + CRLF) + CRLF

  lemma BulkErrorIsFrame(x: Text)
    ensures ParseReply(BULK_ERROR + x, 0) == Done(BANG, |BULK_ERROR|) && IsFrame(BULK_ERROR)
    ensures (BULK_ERROR + x)[..|BULK_ERROR|] == BULK_ERROR && (BULK_ERROR + x)[|BULK_ERROR|..] == x
  {
    hide ParseReply, Atoi, TrimCRLF;
    var t := Bulk(BANG, [48] + CRLF, CRLF);
    TrimTerminated([48], CRLF);
    AtoiOfItoa(0);
    assert Itoa(0) == [48];
    assert WellFormed(t) && Serialize(t) == BULK_ERROR;
    ReadsTree(t, x, 0);
    ReadsTree(t, [], 0);
    assert Serialize(t) + [] == BULK_ERROR;
  }

  /** A server that refuses everything that way, and so never leaves the protocol it starts with. */
  function RefusingServer(): Server<bool> {
    Server((resp3: bool, raw: Text) => (resp3, BULK_ERROR), (resp3: bool) => resp3)
  }

  lemma RefusingServerIsLawful()
    ensures Lawful(RefusingServer())
  {
    hide ParseCommand, ParseReply, HelloProtocol, IsFrame;
    BulkErrorIsFrame([]);
    assert BULK_ERROR + [] == BULK_ERROR;
  }

  /** The condition is needed: after a HELLO 3 that the server refuses with a bulk error, the next synthetic nil
      is one of RESP3, although the connection still speaks RESP2. */
  lemma RefusedHelloMisleads(key: Text)
    requires |key| <= MAX_BULK
    ensures var engine := RandomMiss(0, 1.0);
            var env := Schedule((i: nat) => false, (i: nat) => engine);
            var app := Encode([Ascii("HELLO"), [51]]) + Encode([Ascii("GET"), key]);
            && Lawful(RefusingServer())
            && ToApp(Run(app, BULK_ERROR, 0, 2, false, env).steps) == BULK_ERROR + NilReply(true)
            && Serve(Mask(RefusingServer(), engine), false, ReadAll(app)).0 == BULK_ERROR + NilReply(false)
            && NilReply(true) != NilReply(false)
  {
    hide ParseCommand, Encode, Upper, NilReply, Rejects, Run, Handle, Negotiate, Mask;
    var engine := RandomMiss(0, 1.0);
    var env := Schedule((i: nat) => false, (i: nat) => engine);
    var args, args' := [Ascii("HELLO"), [51]], [Ascii("GET"), key];
    var app, rest := Encode(args) + Encode(args'), Encode(args');
    var hello, get := NewCommand(args, Encode(args)), NewCommand(args', rest);
    RefusingServerIsLawful();
    HelloAndGet(key);
    CommandRoundTrip(args, rest);
    CommandRoundTrip(args', []);
    assert rest + [] == rest && app[|Encode(args)|..] == rest && rest[|rest|..] == [];
    ReadAllStep(app);
    ReadAllStep(rest);
    NothingToRead();
    assert ReadAll(app) == [hello] + [get];
    HelloIsForwarded(hello, engine);
    GetIsMissed(get, engine, true);
    RunStep(app, BULK_ERROR, 0, 2, false, env);
    RunStep(rest, [], 1, 1, true, env);
    RunStep([], [], 2, 0, true, env);
    var h := Handle(hello, engine, BULK_ERROR, false);
    var h' := Handle(get, engine, [], true);
    assert Run(rest, [], 1, 1, true, env).steps == [Step(get, h'.value, true)];
    assert Run(app, BULK_ERROR, 0, 2, false, env).steps == [Step(hello, h.value, true)] + [Step(get, h'.value, true)];
    StepsAppend([Step(hello, h.value, true)], [Step(get, h'.value, true)]);
    SingleStep(Step(hello, h.value, true));
    SingleStep(Step(get, h'.value, true));
    RawIsWhole(app);
    RawIsWhole(rest);
    IsWholeMeans(hello);
    IsWholeMeans(get);
    MaskedPair(hello, get, engine);
    assert NilReply(true) != NilReply(false) by { NilRepliesDiffer(); }
  }

  lemma NilRepliesDiffer()
    ensures NilReply(true) != NilReply(false)
  {
    assert NilReply(true)[0] != NilReply(false)[0];
  }

  lemma NothingToRead()
    ensures ParseCommand([]).Fail? && ReadAll([]) == []
  {}

  lemma HelloAndGet(key: Text)
    ensures Upper(Ascii("HELLO")) == Ascii("HELLO") && Upper(Ascii("GET")) == Ascii("GET")
    ensures |key| <= MAX_BULK ==> InLimits([Ascii("HELLO"), [51]]) && InLimits([Ascii("GET"), key])
    ensures Ascii("3") == [51]
  {}

  lemma HelloIsForwarded(c: Command, engine: Engine)
    requires c.name == Ascii("HELLO") && |c.args| == 2 && c.args[1] == Ascii("3") && engine.RandomMiss?
    ensures !Rejects(engine, c) && engine.Decide(c).Forward? && HelloProtocol(c) == Some(true)
    ensures var h := Handle(c, engine, BULK_ERROR, false);
            && h == Done(Forwarded(BULK_ERROR, BANG), |BULK_ERROR|) && BULK_ERROR[|BULK_ERROR|..] == []
            && Negotiate(c, h.value, false)
  {
    hide ParseReply;
    BulkErrorIsFrame([]);
    assert BULK_ERROR + [] == BULK_ERROR;
    NotUnsupported(c.name);
    if c.name in READ_COMMANDS {
      ReadsAreNotHello(c.name);
    }
    assert Ascii("3")[0] != Ascii("2")[0];
  }

  lemma NotUnsupported(name: Text)
    requires name == Ascii("HELLO") || name == Ascii("GET")
    ensures name !in UNSUPPORTED
  {
    assert name[0] == 72 || name[0] == 71;
    assert forall n: Text | n in UNSUPPORTED :: n != [] && n[0] != 72 && n[0] != 71;
  }

  lemma GetIsMissed(c: Command, engine: Engine, resp3: bool)
    requires c.name == Ascii("GET") && |c.args| == 2 && engine.RandomMiss? && engine.probability == 1.0
    ensures !Rejects(engine, c) && engine.Decide(c).ReplaceWithMiss?
    ensures Handle(c, engine, [], resp3) == Done(Missed(NilReply(resp3)), 0)
    ensures Negotiate(c, Missed(NilReply(resp3)), resp3) == resp3
  {
    hide NilReply;
    NotUnsupported(c.name);
  }

  /** What the masked server answers to the two commands. */
  lemma MaskedPair(hello: Command, get: Command, engine: Engine)
    requires IsWhole(hello) && IsWhole(get)
    requires !Rejects(engine, hello) && !engine.Decide(hello).ReplaceWithMiss?
    requires !Rejects(engine, get) && engine.Decide(get).ReplaceWithMiss?
    ensures Serve(Mask(RefusingServer(), engine), false, [hello] + [get]).0 == BULK_ERROR + NilReply(false)
  {
    hide Mask, IsWhole, Rejects, NilReply;
    var mask := Mask(RefusingServer(), engine);
    MaskStep(RefusingServer(), engine, false, hello);
    MaskStep(RefusingServer(), engine, false, get);
    assert ([hello] + [get])[1..] == [get] && [get][1..] == [];
    assert Serve(mask, false, [get]).0 == NilReply(false) + [];
  }
}
