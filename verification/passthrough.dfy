/** The passthrough leg inside the connection loop (src/server.rs with src/hsm_client.rs): when a client
    of a discovering proxy still decodes exactly one reply per command. */
module Passthrough {
  import opened Bytes
  import opened Framing
  import opened Connection
  import opened Exchange

  /** The state in which command `i` is answered. */
  function StateBefore<S>(env: Env<S>, st: S, cmds: seq<Command>, i: nat): S
    requires i <= |cmds|
  {
    Serve(env, st, cmds[..i]).0
  }

  lemma {:induction false} AnswerAt<S>(env: Env<S>, st: S, cmds: seq<Command>, i: nat)
    requires i < |cmds|
    ensures var outs := Serve(env, st, cmds).1;
            |outs| == |cmds| && outs[i] == Turn(env)(StateBefore(env, st, cmds, i), cmds[i]).1
    decreases i
  {
    var (st', out) := Turn(env)(st, cmds[0]);
    OneOutEach(env, st', cmds[1..]);
    hide Turn;
    if i > 0 {
      AnswerAt(env, st', cmds[1..], i - 1);
      assert cmds[..i][1..] == cmds[1..][..i - 1];
    }
  }

  /** Each command is answered in the state the one before it left; what is not registered and not
      forwarded leaves the state alone. */
  lemma StatesFollow<S>(env: Env<S>, st: S, cmds: seq<Command>, i: nat)
    requires i < |cmds|
    ensures StateBefore(env, st, cmds, 0) == st
    ensures var before, after := StateBefore(env, st, cmds, i), StateBefore(env, st, cmds, i + 1);
            after == if cmds[i].code in env.registered then env.handle(before, cmds[i]).0
                     else if env.discovery then env.forward(before, FrameOf(cmds[i])).0
                     else before
  {
    assert cmds[..0] == [] && cmds[..i + 1] == cmds[..i] + [cmds[i]];
    ServeAppend(env, st, cmds[..i], [cmds[i]]);
    FoldOne(Turn(env), StateBefore(env, st, cmds, i), cmds[i]);
    hide FrameOf;
  }

  lemma {:induction false} OneOutEach<S>(env: Env<S>, st: S, cmds: seq<Command>)
    ensures |Serve(env, st, cmds).1| == |cmds|
  {
    hide Turn;
    if cmds != [] {
      OneOutEach(env, Turn(env)(st, cmds[0]).0, cmds[1..]);
    }
  }

  /** What a command is answered with in a state. */
  function ResponseTo<S>(env: Env<S>, st: S, cmd: Command): (r: Response)
    ensures cmd.code in env.registered ==> r == Local(env.handle(st, cmd).1)
    ensures cmd.code !in env.registered && !env.discovery ==> r == Local(Reply(Code('6', '8'), []))
    ensures cmd.code !in env.registered && env.discovery ==>
              var (_, resp) := env.forward(st, FrameOf(cmd));
              r == if resp.Some? then Passed(resp.value) else Local(Reply(Code('4', '1'), []))
  {
    if cmd.code !in env.registered && env.discovery then
      match env.forward(st, FrameOf(cmd)).1
      case Some(resp) => Passed(resp)
      case None => Local(Reply(CODE_INTERNAL, []))
    else Local(ReplyTo(env, st, cmd).1)
  }

  /** What each of a run of commands is answered with. */
  function Responses<S>(env: Env<S>, st: S, cmds: seq<Command>): (r: seq<Response>)
    ensures |r| == |cmds|
  {
    seq(|cmds|, i requires 0 <= i < |cmds| => ResponseTo(env, StateBefore(env, st, cmds, i), cmds[i]))
  }

  lemma TurnWrites<S>(env: Env<S>, st: S, cmd: Command)
    ensures Turn(env)(st, cmd).1 == WireOf(cmd, ResponseTo(env, st, cmd))
  {
  }

  /** With discovery on or off: a client that looks after every answer finds exactly one reply more
      each time, and nothing left over, if and only if every forwarded reply is one bare frame that
      declares at least four bytes and every local reply fits. It then reads, in order, what the
      handlers answered and what the real HSM did. */
  lemma OneReplyEach<S>(env: Env<S>, st: S, cmds: seq<Command>)
    ensures var outs, responses := Serve(env, st, cmds).1, Responses(env, st, cmds);
            && (Aligned(outs) <==> forall i | 0 <= i < |cmds| :: ReadsAsOne(responses[i]))
            && (Aligned(outs) ==>
                  && |Split(Flatten(outs))| == |cmds| && Residue(Flatten(outs)) == []
                  && forall i | 0 <= i < |cmds| ::
                       ReadsAsOne(responses[i]) && ReadsBack(cmds[i], responses[i], Split(Flatten(outs))[i]))
  {
    var outs, responses := Serve(env, st, cmds).1, Responses(env, st, cmds);
    OneOutEach(env, st, cmds);
    forall i | 0 <= i < |cmds| ensures outs[i] == WireOf(cmds[i], responses[i]) {
      AnswerAt(env, st, cmds, i);
      TurnWrites(env, StateBefore(env, st, cmds, i), cmds[i]);
    }
    hide *;
    AnswersRead(cmds, responses, outs);
  }

  // ------------------------------------------------------- the leg to the HSM

  /** A real HSM: what each frame sent to it does, and the reads its reply comes in unless it fails. */
  type Peer<!S> = (S, bytes) -> (S, Option<seq<bytes>>)

  /** The discovering proxy in front of it; `Relayed` is what the exchange makes of those reads. */
  function Through<S>(env: Env<S>, peer: Peer<S>): Env<S> {
    env.(discovery := true, forward := (st: S, frame: bytes) => Exchanged(peer(st, frame)))
  }

  function Exchanged<S>(sent: (S, Option<seq<bytes>>)): (S, Option<bytes>) {
    match sent.1
    case Some(chunks) => (sent.0, Some(Relayed(chunks)))
    case None => (sent.0, None)
  }

  /** The HSM fails, or sends a frame with a header and a code and ends a read with it. */
  predicate PeerFrames<S>(peer: Peer<S>, st: S, cmd: Command) {
    match peer(st, FrameOf(cmd)).1
    case Some(chunks) => FrameReadAlone(chunks).Some?
    case None => true
  }

  lemma AnswerThrough<S>(env: Env<S>, peer: Peer<S>, st: S, cmd: Command)
    ensures ReadsAsOne(ResponseTo(Through(env, peer), st, cmd)) <==>
            if cmd.code in env.registered then |env.handle(st, cmd).1.payload| <= MAX_REPLY_PAYLOAD
            else PeerFrames(peer, st, cmd)
  {
    if peer(st, FrameOf(cmd)).1.Some? {
      var chunks := peer(st, FrameOf(cmd)).1.value;
      RelayedIsFrame(chunks);
      OneFrameMeans(Relayed(chunks));
    }
    hide OneFrame, FrameReadAlone, Relayed, Declared, FrameOf;
  }

  /** A discovering proxy whose handlers fit keeps its clients in step exactly when, for every command
      it forwards, the real HSM fails or ends a read where its first frame ends, that frame having a
      header and a code. */
  lemma PassthroughKeepsStep<S>(env: Env<S>, peer: Peer<S>, st: S, cmds: seq<Command>)
    ensures var far := Through(env, peer);
            Aligned(Serve(far, st, cmds).1) <==>
            forall i | 0 <= i < |cmds| ::
              var before := StateBefore(far, st, cmds, i);
              if cmds[i].code in env.registered then |env.handle(before, cmds[i]).1.payload| <= MAX_REPLY_PAYLOAD
              else PeerFrames(peer, before, cmds[i])
  {
    var far := Through(env, peer);
    OneReplyEach(far, st, cmds);
    forall i | 0 <= i < |cmds| {
      AnswerThrough(env, peer, StateBefore(far, st, cmds, i), cmds[i]);
    }
    hide *;
  }
}
