/** One inbound connection (handle_connection in src/server.rs): read, accumulate, split, answer. */
module Connection {
  import opened Bytes
  import opened Framing

  const MAX_INBOUND_ACCUMULATION: nat := 256 * 1024
  const READ_BUFFER: nat := 4096

  /** Largest handler payload whose reply still fits the 16-bit length field. */
  const MAX_REPLY_PAYLOAD: nat := 65529

  const CODE_DISABLED: Pair := [0x36, 0x38]  // "68"
  const CODE_INTERNAL: Pair := [0x34, 0x31]  // "41"

  datatype Reply = Reply(error: Pair, payload: bytes)

  /** Everything outside the connection loop: the handlers, and the passthrough leg.
      Both may carry state from one command to the next. */
  datatype Env<!S> = Env(
    registered: set<Pair>,
    discovery: bool,
    handle: (S, Command) -> (S, Reply),
    forward: (S, bytes) -> (S, Option<bytes>))

  /** The reply to a command that is not forwarded: its handler's, or "68" without one. */
  function ReplyTo<S>(env: Env<S>, st: S, cmd: Command): (S, Reply) {
    if cmd.code in env.registered then env.handle(st, cmd) else (st, Reply(CODE_DISABLED, []))
  }

  /** The bytes written for one command; `frame` is the command as it stood in the buffer. */
  function Answer<S>(env: Env<S>, st: S, cmd: Command, frame: bytes): (S, bytes) {
    if cmd.code !in env.registered && env.discovery then
      var (st', resp) := env.forward(st, frame);
      (st', if resp.Some? then resp.value else FrameError(cmd.header, cmd.code, CODE_INTERNAL))
    else
      var (st', reply) := ReplyTo(env, st, cmd);
      (st', FrameResponse(cmd.header, ResponseCode(cmd.code), reply.error, reply.payload))
  }

  /** The frame a command was cut from is the command framed again. */
  function FrameOf(cmd: Command): bytes {
    FrameRequest(cmd.header, cmd.code, cmd.payload)
  }

  lemma FrameRebuilt(buf: bytes)
    requires Parse(buf).Some?
    ensures buf[..Parse(buf).value.length] == FrameOf(Parse(buf).value.command)
  {
    var f := Parse(buf).value;
    var n := f.length - 2;
    assert n == Declared(buf);
    assert U16Bytes(n) == buf[..2] by {
      U16RoundTrip(buf[0], buf[1]);
      assert buf[..2] == [buf[0], buf[1]];
    }
    assert f.command == Command(buf[2..4], buf[4..6], buf[6..f.length]) by {
      SliceOfSlice(buf, 2, f.length, 0, 2);
      SliceOfSlice(buf, 2, f.length, 2, 4);
      SliceOfSlice(buf, 2, f.length, 4, n);
    }
    assert n == 4 + |f.command.payload|;
    hide Parse, U16, U16Bytes, Declared;
    Cut(buf, f.length);
  }

  lemma Cut(buf: bytes, n: nat)
    requires 6 <= n <= |buf|
    ensures buf[..n] == buf[..2] + buf[2..4] + buf[4..6] + buf[6..n]
  {
  }

  /** Run a step over a list, collecting what each step puts out. */
  function Fold<S, C, O>(step: (S, C) -> (S, O), st: S, items: seq<C>): (S, seq<O>) {
    if items == [] then (st, [])
    else
      var head := step(st, items[0]);
      var tail := Fold(step, head.0, items[1..]);
      (tail.0, [head.1] + tail.1)
  }

  lemma {:induction false} FoldAppend<S, C, O>(step: (S, C) -> (S, O), st: S, a: seq<C>, b: seq<C>)
    ensures var mid := Fold(step, st, a);
            var last := Fold(step, mid.0, b);
            Fold(step, st, a + b) == (last.0, mid.1 + last.1)
  {
    if a == [] {
      assert a + b == b;
      assert [] + Fold(step, st, b).1 == Fold(step, st, b).1;
    } else {
      var head := step(st, a[0]);
      assert (a + b)[1..] == a[1..] + b;
      FoldAppend(step, head.0, a[1..], b);
      var mid := Fold(step, head.0, a[1..]);
      var last := Fold(step, mid.0, b);
      assert [head.1] + (mid.1 + last.1) == ([head.1] + mid.1) + last.1;
    }
  }

  lemma FoldOne<S, C, O>(step: (S, C) -> (S, O), st: S, c: C)
    ensures Fold(step, st, [c]) == (step(st, c).0, [step(st, c).1])
  {
    assert [c][1..] == [];
    assert [step(st, c).1] + [] == [step(st, c).1];
  }

  function Turn<S>(env: Env<S>): (S, Command) -> (S, bytes) {
    (st: S, c: Command) => Answer(env, st, c, FrameOf(c))
  }

  /** Reference: answer a list of commands in order. */
  function Serve<S>(env: Env<S>, st: S, cmds: seq<Command>): (S, seq<bytes>) {
    Fold(Turn(env), st, cmds)
  }

  lemma ServeAppend<S>(env: Env<S>, st: S, a: seq<Command>, b: seq<Command>)
    ensures var mid := Serve(env, st, a);
            Serve(env, st, a + b) == (Serve(env, mid.0, b).0, mid.1 + Serve(env, mid.0, b).1)
  {
    FoldAppend(Turn(env), st, a, b);
  }

  /** The bytes a connection receives: its reads up to the first empty one, which is end of stream. */
  function Stream(chunks: seq<bytes>): bytes {
    if chunks == [] || chunks[0] == [] then [] else chunks[0] + Stream(chunks[1..])
  }

  lemma {:induction false} StreamPrefix(chunks: seq<bytes>, n: nat)
    requires n <= |chunks| && forall i | 0 <= i < n :: chunks[i] != []
    ensures Stream(chunks) == Flatten(chunks[..n]) + Stream(chunks[n..])
    ensures n == |chunks| || chunks[n] == [] ==> Stream(chunks[n..]) == []
  {
    if n == 0 {
      assert chunks[0..] == chunks;
    } else {
      StreamPrefix(chunks[1..], n - 1);
      assert chunks[..n][1..] == chunks[1..][..n - 1];
      assert chunks[1..][n - 1..] == chunks[n..];
    }
  }

  /** Reading more of a doomed head never yields another command. */
  lemma DoomedResidue(a: bytes, b: bytes)
    requires Doomed(Residue(a))
    ensures Split(a + b) == Split(a) && Doomed(Residue(a + b))
  {
    SplitAppend(a, b);
    DoomedForever(Residue(a), b);
  }

  lemma NothingServed<S>(env: Env<S>, st0: S)
    ensures Serve(env, st0, []) == (st0, [])
  {
  }

  /** Answering the next frame goes on from what was served so far. */
  lemma OneServed<S>(env: Env<S>, st0: S, cmds: seq<Command>, outs: seq<bytes>, st: S, buf: bytes)
    requires Parse(buf).Some? && Serve(env, st0, cmds) == (st, outs)
    ensures var Frame(cmd, n) := Parse(buf).value;
            var (st', out) := Answer(env, st, cmd, buf[..n]);
            Serve(env, st0, cmds + [cmd]) == (st', outs + [out])
  {
    FrameRebuilt(buf);
    hide Parse, FrameOf, Answer;
    FoldAppend(Turn(env), st0, cmds, [Parse(buf).value.command]);
    FoldOne(Turn(env), st, Parse(buf).value.command);
  }

  /** Draining a frame moves its command from what is to be split to what was. */
  lemma OneDrained(buffered: bytes, drained: nat, cmds: seq<Command>, buf: bytes)
    requires drained <= |buffered| && buf == buffered[drained..] && Parse(buf).Some?
    ensures var Frame(cmd, n) := Parse(buf).value;
            && 0 < n <= |buf| && buf[n..] == buffered[drained + n..]
            && cmds + Split(buf) == (cmds + [cmd]) + Split(buf[n..]) && Residue(buf) == Residue(buf[n..])
  {
    SplitStep(buf);
    hide Parse, Split, Residue;
  }

  /** The inner loop: answer every complete frame in the buffer and drain it. */
  method DrainFrames<S>(buffered: bytes, env: Env<S>, st0: S)
    returns (cmds: seq<Command>, outs: seq<bytes>, st: S, buf: bytes, drained: nat)
    ensures cmds == Split(buffered)
    ensures (st, outs) == Serve(env, st0, Split(buffered))
    ensures buf == Residue(buffered)
    ensures drained <= |buffered| && buf == buffered[drained..]
  {
    hide *;
    NothingServed(env, st0);
    cmds, outs, st, buf, drained := [], [], st0, buffered, 0;
    while true
      invariant drained <= |buffered| && buf == buffered[drained..]
      invariant Split(buffered) == cmds + Split(buf)
      invariant Residue(buffered) == Residue(buf)
      invariant (st, outs) == Serve(env, st0, cmds)
      decreases |buf|
    {
      var parsed := Parse(buf);
      if parsed.None? {
        SplitStep(buf);
        break;
      }
      var Frame(cmd, n) := parsed.value;
      OneServed(env, st0, cmds, outs, st, buf);
      OneDrained(buffered, drained, cmds, buf);
      var (st', out) := Answer(env, st, cmd, buf[..n]);
      st, outs, cmds := st', outs + [out], cmds + [cmd];
      buf, drained := buf[n..], drained + n;
    }
  }

  /** What one read adds: the commands of the longer stream, and the size of the buffer. */
  lemma ReadStep(before: bytes, chunk: bytes)
    requires |chunk| <= READ_BUFFER
    ensures Split(before + chunk) == Split(before) + Split(Residue(before) + chunk)
    ensures Residue(before + chunk) == Residue(Residue(before) + chunk)
    ensures Doomed(Residue(before)) ==> Doomed(Residue(before + chunk))
    ensures !Doomed(Residue(before)) ==> |Residue(before) + chunk| <= MAX_BODY + 1 + READ_BUFFER
  {
    SplitAppend(before, chunk);
    NothingParsed(Residue(before));
    if Doomed(Residue(before)) {
      DoomedForever(Residue(before), chunk);
    }
  }

  /** State of the outer loop once `total` bytes have arrived and been worked off. */
  datatype Progress<S> = Progress(
    dispatched: seq<Command>, written: seq<bytes>, st: S, buf: bytes, drained: nat, peak: nat)
  {
    ghost predicate After(env: Env<S>, st0: S, total: bytes) {
      && dispatched == Split(total) && buf == Residue(total)
      && Serve(env, st0, Split(total)) == (st, written)
      && drained <= |total| && buf == total[drained..]
      && |buf| <= MAX_INBOUND_ACCUMULATION
      && Bounded(total)
    }

    ghost predicate Bounded(total: bytes) {
      && peak <= MAX_INBOUND_ACCUMULATION + READ_BUFFER
      && (!Doomed(Residue(total)) ==> peak <= MAX_BODY + 1 + READ_BUFFER)
    }

    /** `buf.extend_from_slice` */
    function Extend(chunk: bytes): Progress<S> {
      var longer := buf + chunk;
      this.(buf := longer, peak := if |longer| > peak then |longer| else peak)
    }
  }

  /** The state in which the cap closes the connection: the head is doomed, and the last
      read added bytes but no command. */
  ghost predicate Overrun<S>(p: Progress<S>, env: Env<S>, st0: S, total: bytes) {
    && p.dispatched == Split(total) && p.buf == Residue(total) && Doomed(p.buf)
    && Serve(env, st0, Split(total)) == (p.st, p.written)
    && p.drained <= |total| && p.buf == total[p.drained..]
    && |p.buf| > MAX_INBOUND_ACCUMULATION && p.Bounded(total)
  }

  lemma ExtendBounded<S>(p: Progress<S>, env: Env<S>, st0: S, total: bytes, chunk: bytes)
    requires p.After(env, st0, total) && |chunk| <= READ_BUFFER
    ensures p.Extend(chunk).Bounded(total + chunk)
    ensures p.drained <= |total + chunk| && p.buf + chunk == (total + chunk)[p.drained..]
  {
    hide Parse, Split, Residue, Doomed, Serve;
    ReadStep(total, chunk);
    DropAppended(total, chunk, p.drained);
  }

  lemma OverrunFrom<S>(p: Progress<S>, env: Env<S>, st0: S, total: bytes, chunk: bytes)
    requires p.After(env, st0, total) && |chunk| <= READ_BUFFER
    requires |p.buf + chunk| > MAX_INBOUND_ACCUMULATION
    ensures Overrun(p.Extend(chunk), env, st0, total + chunk)
  {
    ExtendBounded(p, env, st0, total, chunk);
    ReadStep(total, chunk);
    DoomedForever(p.buf, chunk);
    assert Split(total) + [] == Split(total);
  }

  lemma DrainedAfter<S>(p: Progress<S>, env: Env<S>, st0: S, total: bytes, chunk: bytes,
                        outs: seq<bytes>, st: S, n: nat)
    requires p.After(env, st0, total) && |chunk| <= READ_BUFFER
    requires |p.buf + chunk| <= MAX_INBOUND_ACCUMULATION
    requires (st, outs) == Serve(env, p.st, Split(p.buf + chunk))
    requires n <= |p.buf + chunk| && Residue(p.buf + chunk) == (p.buf + chunk)[n..]
    ensures Progress(p.dispatched + Split(p.buf + chunk), p.written + outs, st,
                     Residue(p.buf + chunk), p.drained + n, p.Extend(chunk).peak)
            .After(env, st0, total + chunk)
  {
    hide Parse, Split, Residue, Serve, Fold, Turn, Answer, Doomed;
    ReadStep(total, chunk);
    ExtendBounded(p, env, st0, total, chunk);
    ServeAppend(env, st0, Split(total), Split(p.buf + chunk));
  }

  /** One pass of the outer loop: take a read, check the cap, answer what is complete. */
  method OnRead<S>(p: Progress<S>, chunk: bytes, env: Env<S>, ghost st0: S, ghost total: bytes)
    returns (q: Progress<S>, capped: bool)
    requires p.After(env, st0, total) && |chunk| <= READ_BUFFER
    ensures !capped ==> q.After(env, st0, total + chunk)
    ensures capped ==> q == p.Extend(chunk) && |p.buf + chunk| > MAX_INBOUND_ACCUMULATION
  {
    hide Parse, Split, Residue, Doomed, Serve, Progress<S>.After;
    q := p.Extend(chunk);
    capped := |q.buf| > MAX_INBOUND_ACCUMULATION;
    if !capped {
      var cmds, outs, st, buf, n := DrainFrames(q.buf, env, q.st);
      DrainedAfter(p, env, st0, total, chunk, outs, st, n);
      q := Progress(q.dispatched + cmds, q.written + outs, st, buf, q.drained + n, q.peak);
    }
  }

  lemma Fresh<S>(env: Env<S>, st0: S, chunks: seq<bytes>)
    ensures Progress([], [], st0, [], 0, 0).After(env, st0, Flatten(chunks[..0]))
  {
    assert Flatten(chunks[..0]) == [];
  }

  lemma FlattenNext(chunks: seq<bytes>, n: nat)
    requires n < |chunks|
    ensures Flatten(chunks[..n + 1]) == Flatten(chunks[..n]) + chunks[n]
  {
    assert chunks[..n + 1] == chunks[..n] + [chunks[n]];
    FlattenSnoc(chunks[..n], chunks[n]);
  }

  lemma Finished<S>(p: Progress<S>, env: Env<S>, st0: S, total: bytes, more: bytes, capped: bool)
    requires if capped then Overrun(p, env, st0, total) else p.After(env, st0, total) && more == []
    ensures p.dispatched == Split(total + more)
    ensures Serve(env, st0, Split(total + more)) == (p.st, p.written)
    ensures capped ==> Doomed(p.buf) && |p.buf| > 262144
    ensures p.drained <= |total| && p.buf == total[p.drained..]
    ensures p.peak <= 262144 + 4096 && (!Doomed(Residue(total + more)) ==> p.peak <= 65536 + 4096)
  {
    hide Parse, Split, Residue, Doomed, Serve;
    if capped {
      DoomedResidue(total, more);
    } else {
      assert total + more == total;
    }
  }

  lemma Limits()
    ensures READ_BUFFER == 4096 && MAX_INBOUND_ACCUMULATION == 262144
  {
  }

  /** The connection loop. However the stream was cut into reads, the commands dispatched and
      the replies written are those of one split of the whole stream. The accumulation cap
      closes only a connection whose head can never complete, and every byte received is
      either drained or still buffered. */
  method HandleConnection<S>(chunks: seq<bytes>, env: Env<S>, st0: S)
    returns (p: Progress<S>, used: nat, capped: bool)
    requires forall i | 0 <= i < |chunks| :: |chunks[i]| <= 4096
    ensures p.dispatched == Split(Stream(chunks))
    ensures Serve(env, st0, Split(Stream(chunks))) == (p.st, p.written)
    ensures used <= |chunks| && Flatten(chunks[..used]) <= Stream(chunks)
    ensures !capped ==> Flatten(chunks[..used]) == Stream(chunks)
    ensures capped ==> Doomed(p.buf) && |p.buf| > 262144
    ensures p.drained <= |Flatten(chunks[..used])| && p.buf == Flatten(chunks[..used])[p.drained..]
    ensures p.peak <= 262144 + 4096 && (!Doomed(Residue(Stream(chunks))) ==> p.peak <= 65536 + 4096)
  {
    hide *;
    Limits();
    p, used, capped := Progress([], [], st0, [], 0, 0), 0, false;
    ghost var total := Flatten(chunks[..0]);
    Fresh(env, st0, chunks);
    while used < |chunks| && !capped && chunks[used] != []
      invariant used <= |chunks|
      invariant forall i | 0 <= i < used :: chunks[i] != []
      invariant total == Flatten(chunks[..used])
      invariant if capped then Overrun(p, env, st0, total) else p.After(env, st0, total)
      decreases |chunks| - used, !capped
    {
      ghost var q := p;
      p, capped := OnRead(p, chunks[used], env, st0, total);
      if capped {
        OverrunFrom(q, env, st0, total, chunks[used]);
      }
      FlattenNext(chunks, used);
      total, used := total + chunks[used], used + 1;
    }
    StreamPrefix(chunks, used);
    Finished(p, env, st0, total, Stream(chunks[used..]), capped);
  }

  // ---------------------------------------------------- what the client reads back

  /** What a command is answered with: a reply framed here, or the real HSM's bytes as they came. */
  datatype Response = Local(reply: Reply) | Passed(resp: bytes)

  function WireOf(cmd: Command, response: Response): bytes {
    match response
    case Local(reply) => FrameResponse(cmd.header, ResponseCode(cmd.code), reply.error, reply.payload)
    case Passed(resp) => resp
  }

  /** The client finds one reply: a local one that fits the length field, or a bare frame that declares
      header and code at least. */
  predicate ReadsAsOne(response: Response) {
    match response
    case Local(reply) => |reply.payload| <= MAX_REPLY_PAYLOAD
    case Passed(resp) => |resp| >= 2 && |resp| == Declared(resp) + 2 && Declared(resp) >= 4
  }

  /** `r` is that reply: the header, the code with its second byte counted on by one, and error and
      payload of a local reply; a passed frame's own three parts. */
  predicate ReadsBack(cmd: Command, response: Response, r: Command) {
    match response
    case Local(reply) =>
      && r.header == cmd.header && r.code[0] == cmd.code[0] && r.code[1] as int == (cmd.code[1] as int + 1) % 256
      && r.payload == reply.error + reply.payload
    case Passed(resp) => |resp| >= 2 && resp[2..] == r.header + (r.code + r.payload)
  }

  lemma ResponseIsFrame(cmd: Command, response: Response)
    ensures OneFrame(WireOf(cmd, response)) <==> ReadsAsOne(response)
    ensures ReadsAsOne(response) ==> ReadsBack(cmd, response, Parse(WireOf(cmd, response)).value.command)
  {
    match response
    case Local(reply) => ResponseFrames(cmd.header, ResponseCode(cmd.code), reply.error, reply.payload);
    case Passed(resp) =>
      OneFrameMeans(resp);
      if OneFrame(resp) {
        BareReplyParsed(resp);
        assert resp[2..] == resp[2..4] + (resp[4..6] + resp[6..]);
      }
    hide OneFrame, Parse, FrameResponse, Declared, ResponseCode;
  }

  /** Answers written one after the other keep the client in step if and only if each reads as one. */
  lemma AnswersRead(cmds: seq<Command>, responses: seq<Response>, outs: seq<bytes>)
    requires |responses| == |outs| <= |cmds|
    requires forall i | 0 <= i < |outs| :: outs[i] == WireOf(cmds[i], responses[i])
    ensures Aligned(outs) <==> forall i | 0 <= i < |outs| :: ReadsAsOne(responses[i])
    ensures Aligned(outs) ==>
              && |Split(Flatten(outs))| == |outs| && Residue(Flatten(outs)) == []
              && forall i | 0 <= i < |outs| ::
                   ReadsAsOne(responses[i]) && ReadsBack(cmds[i], responses[i], Split(Flatten(outs))[i])
  {
    forall i | 0 <= i < |outs|
      ensures OneFrame(outs[i]) <==> ReadsAsOne(responses[i])
      ensures ReadsAsOne(responses[i]) ==> ReadsBack(cmds[i], responses[i], Parse(outs[i]).value.command)
    {
      ResponseIsFrame(cmds[i], responses[i]);
    }
    AlignedExactly(outs);
    hide Aligned, WireOf, ReadsAsOne, ReadsBack, Parse, OneFrame, Split, Residue, Flatten;
    if forall i | 0 <= i < |outs| :: OneFrame(outs[i]) {
      FramesDecode(outs);
    }
  }

  /** The reply a client should decode for each command when nothing is forwarded. */
  function Expected<S>(env: Env<S>, st: S, cmds: seq<Command>): (r: seq<Command>)
    ensures |r| == |cmds|
    ensures forall i | 0 <= i < |cmds| ::
              && r[i].header == cmds[i].header && r[i].code[0] == cmds[i].code[0]
              && r[i].code[1] as int == (cmds[i].code[1] as int + 1) % 256
  {
    if cmds == [] then []
    else
      var (st', reply) := ReplyTo(env, st, cmds[0]);
      [Command(cmds[0].header, ResponseCode(cmds[0].code), reply.error + reply.payload)]
      + Expected(env, st', cmds[1..])
  }

  /** Every handler payload met along the way leaves room for header, code and error. */
  predicate PayloadsFit<S>(env: Env<S>, st: S, cmds: seq<Command>) {
    cmds == [] ||
    (var (st', reply) := ReplyTo(env, st, cmds[0]);
     |reply.payload| <= MAX_REPLY_PAYLOAD && PayloadsFit(env, st', cmds[1..]))
  }

  /** The client recovers exactly one reply per command, in order, with nothing left over,
      if and only if every payload fits. */
  lemma {:induction false} RepliesDecode<S>(env: Env<S>, st: S, cmds: seq<Command>)
    requires !env.discovery
    ensures var wire := Flatten(Serve(env, st, cmds).1);
            Split(wire) == Expected(env, st, cmds) && Residue(wire) == []
            <==> PayloadsFit(env, st, cmds)
    ensures var read := Split(Flatten(Serve(env, st, cmds).1));
            PayloadsFit(env, st, cmds) ==>
              && |read| == |cmds|
              && forall i | 0 <= i < |cmds| ::
                   && read[i].header == cmds[i].header && read[i].code[0] == cmds[i].code[0]
                   && read[i].code[1] as int == (cmds[i].code[1] as int + 1) % 256
  {
    if cmds != [] {
      var c := cmds[0];
      var (st', reply) := ReplyTo(env, st, c);
      var out := Turn(env)(st, c).1;
      var rest := Flatten(Serve(env, st', cmds[1..]).1);
      var want := Command(c.header, ResponseCode(c.code), reply.error + reply.payload);
      var wire := out + rest;
      assert Flatten(Serve(env, st, cmds).1) == wire;
      ParseFramed(c.header, ResponseCode(c.code), reply.error, reply.payload, rest);
      if |reply.payload| <= MAX_REPLY_PAYLOAD {
        assert wire[|out|..] == rest;
        RepliesDecode(env, st', cmds[1..]);
        assert Split(wire) == [want] + Split(rest);
        assert Split(wire)[1..] == Split(rest);
        assert Expected(env, st, cmds)[1..] == Expected(env, st', cmds[1..]);
      } else {
        assert Parse(wire).Some? ==> |Parse(wire).value.command.payload| <= MAX_BODY - 4;
        assert Split(wire) != [] ==> Split(wire)[0] != want;
      }
    }
  }
}
