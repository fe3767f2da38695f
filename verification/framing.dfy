/** payShield host-command framing (src/protocol/thales.rs): [2B length][2B header][2B code][payload]. */
module Framing {
  import opened Bytes

  datatype Command = Command(header: Pair, code: Pair, payload: bytes)

  datatype Frame = Frame(command: Command, length: nat)

  const MAX_BODY: nat := 0xFFFF

  function U16(hi: byte, lo: byte): (n: nat)
    ensures n <= 0xFFFF
  {
    hi * 256 + lo
  }

  /** `(n as u16).to_be_bytes()`: the cast keeps the low 16 bits. */
  function U16Bytes(n: nat): (s: Pair)
    ensures U16(s[0], s[1]) == n % 0x10000
  {
    [n % 0x10000 / 256, n % 256]
  }

  lemma U16RoundTrip(hi: byte, lo: byte)
    ensures U16Bytes(U16(hi, lo)) == [hi, lo]
  {
    assert (hi * 256 + lo) / 256 == hi && (hi * 256 + lo) % 256 == lo;
  }

  /** Body length declared by the first two bytes. */
  function Declared(buf: bytes): nat
    requires |buf| >= 2
  {
    U16(buf[0], buf[1])
  }

  /** One complete command at the front of the buffer, if there is one. */
  function Parse(buf: bytes): (r: Option<Frame>)
    ensures r.Some? ==> 6 <= r.value.length <= |buf|
  {
    if |buf| < 6 then None
    else
      var bodyLen := Declared(buf);
      if bodyLen < 4 || |buf| < 2 + bodyLen then None
      else
        var msg := buf[2..2 + bodyLen];
        Some(Frame(Command(msg[..2], msg[2..4], msg[4..]), 2 + bodyLen))
  }

  /** Reply code: the command code with its second byte incremented, wrapping at 256. */
  function ResponseCode(code: Pair): (r: Pair)
    ensures r[0] == code[0] && r[1] as int == (code[1] as int + 1) % 256
  {
    [code[0], if code[1] == 255 then 0 else code[1] + 1]
  }

  function FrameResponse(header: Pair, code: Pair, error: bytes, payload: bytes): (f: bytes) {
    U16Bytes(2 + |code| + |error| + |payload|) + header + code + error + payload
  }

  function FrameRequest(header: Pair, code: Pair, payload: bytes): bytes {
    FrameResponse(header, code, [], payload)
  }

  function FrameError(header: Pair, code: Pair, error: Pair): bytes {
    FrameResponse(header, ResponseCode(code), error, [])
  }

  predicate IsResponseComplete(data: bytes) {
    |data| >= 2 && |data| >= Declared(data) + 2
  }

  lemma DeclaredFramed(header: Pair, code: Pair, error: bytes, payload: bytes, tail: bytes)
    ensures var f := FrameResponse(header, code, error, payload);
            Declared(f + tail) == (4 + |error| + |payload|) % 0x10000
  {
    var f := FrameResponse(header, code, error, payload);
    assert (f + tail)[..2] == U16Bytes(4 + |error| + |payload|);
  }

  lemma FramedSlices(length: Pair, header: Pair, code: Pair, body: bytes, tail: bytes)
    ensures var buf := length + header + code + body + tail;
            var msg := buf[2..2 + (4 + |body|)];
            msg[..2] == header && msg[2..4] == code && msg[4..] == body
  {
    var buf := length + header + code + body + tail;
    var msg := buf[2..2 + (4 + |body|)];
    assert |header| == 2 && |code| == 2;
    assert msg == header + code + body;
    assert msg[..2] == header;
    assert msg[2..4] == code;
    assert msg[4..] == body;
  }

  lemma ParseFitting(header: Pair, code: Pair, body: bytes, tail: bytes)
    requires 4 + |body| <= MAX_BODY
    ensures var f := U16Bytes(4 + |body|) + header + code + body;
            Parse(f + tail) == Some(Frame(Command(header, code, body), |f|))
  {
    var length := U16Bytes(4 + |body|);
    FramedSlices(length, header, code, body, tail);
    FramedLength(length, header, code, body, tail);
    hide U16Bytes, U16, Declared;
  }

  lemma FramedLength(length: Pair, header: Pair, code: Pair, body: bytes, tail: bytes)
    ensures var buf := length + header + code + body + tail;
            |buf| == 6 + |body| + |tail| && Declared(buf) == U16(length[0], length[1])
  {
    hide U16;
    var buf := length + header + code + body + tail;
    assert buf[0] == length[0] && buf[1] == length[1];
  }

  /** Parsing a frame followed by anything gives the frame back exactly when the body
      fits the 16-bit length field; otherwise the truncated length misframes it. */
  lemma ParseFramed(header: Pair, code: Pair, error: bytes, payload: bytes, tail: bytes)
    ensures var f := FrameResponse(header, code, error, payload);
            Parse(f + tail) == Some(Frame(Command(header, code, error + payload), |f|))
            <==> 4 + |error| + |payload| <= MAX_BODY
  {
    var body := 4 + |error| + |payload|;
    DeclaredFramed(header, code, error, payload, tail);
    if body <= MAX_BODY {
      ParseFitting(header, code, error + payload, tail);
      assert FrameResponse(header, code, error, payload) == U16Bytes(body) + header + code + (error + payload);
    }
  }

  /** A command that was found stays the same command when more bytes arrive. */
  lemma ParseStable(buf: bytes, more: bytes)
    requires Parse(buf).Some?
    ensures Parse(buf + more) == Parse(buf)
  {
    var n := 2 + Declared(buf);
    assert (buf + more)[2..n] == buf[2..n];
  }

  /** The head can never become a frame: it declares a body too short for header and code. */
  predicate Doomed(buf: bytes) {
    |buf| >= 2 && Declared(buf) < 4
  }

  /** Why a parse finds nothing: either the head is doomed or the frame is still short. */
  lemma NothingParsed(buf: bytes)
    ensures Parse(buf).None? <==> Doomed(buf) || !IsResponseComplete(buf)
    ensures Parse(buf).None? && !Doomed(buf) ==> |buf| <= 1 + MAX_BODY
  {
  }

  // ------------------------------------------------------------ the reference

  /** Every command of a whole stream, found by one recursive split. */
  function Split(stream: bytes): seq<Command>
    decreases |stream|
  {
    match Parse(stream)
    case None => []
    case Some(f) => [f.command] + Split(stream[f.length..])
  }

  /** What is left of the stream once its commands are taken off. */
  function Residue(stream: bytes): (r: bytes)
    ensures Parse(r).None?
    decreases |stream|
  {
    match Parse(stream)
    case None => stream
    case Some(f) => Residue(stream[f.length..])
  }

  /** One step of the split, for proofs that should not look inside `Parse`. */
  lemma SplitStep(buf: bytes)
    ensures Parse(buf).None? ==> Split(buf) == [] && Residue(buf) == buf
    ensures Parse(buf).Some? ==>
              var f := Parse(buf).value;
              Split(buf) == [f.command] + Split(buf[f.length..])
              && Residue(buf) == Residue(buf[f.length..])
  {
    hide Parse;
  }

  /** Splitting can stop anywhere and resume from the residue. */
  lemma {:induction false} SplitAppend(a: bytes, b: bytes)
    ensures Split(a + b) == Split(a) + Split(Residue(a) + b)
    ensures Residue(a + b) == Residue(Residue(a) + b)
    decreases |a|
  {
    SplitStep(a);
    hide *;
    if Parse(a).Some? {
      var f := Parse(a).value;
      ParseStable(a, b);
      SplitStep(a + b);
      DropAppended(a, b, f.length);
      SplitAppend(a[f.length..], b);
      Reassociate([f.command], Split(a[f.length..]), Split(Residue(a) + b));
    } else {
      assert [] + Split(a + b) == Split(a + b);
    }
  }

  lemma DropAppended(a: bytes, b: bytes, n: nat)
    requires n <= |a|
    ensures (a + b)[n..] == a[n..] + b
  {
  }

  lemma Reassociate(a: seq<Command>, b: seq<Command>, c: seq<Command>)
    ensures (a + b) + c == a + (b + c)
  {
  }

  lemma DoomedForever(buf: bytes, more: bytes)
    requires Doomed(buf)
    ensures Doomed(buf + more) && Split(buf + more) == [] && Residue(buf + more) == buf + more
  {
    assert Declared(buf + more) == Declared(buf);
  }

  // --------------------------------------------------- what a client decodes

  /** A byte string that is exactly one frame. */
  predicate OneFrame(out: bytes) {
    Parse(out).Some? && Parse(out).value.length == |out|
  }

  lemma OneFrameMeans(out: bytes)
    ensures OneFrame(out) <==> |out| >= 2 && |out| == Declared(out) + 2 && Declared(out) >= 4
  {
  }

  /** A response this proxy frames itself is one frame if and only if it fits. */
  lemma ResponseFrames(header: Pair, code: Pair, error: bytes, payload: bytes)
    ensures var f := FrameResponse(header, code, error, payload);
            && (OneFrame(f) <==> 4 + |error| + |payload| <= MAX_BODY)
            && (OneFrame(f) ==> Parse(f).value.command == Command(header, code, error + payload))
  {
    var f := FrameResponse(header, code, error, payload);
    ParseFramed(header, code, error, payload, []);
    assert f + [] == f;
    OneFrameMeans(f);
  }

  lemma BareReplyParsed(resp: bytes)
    requires OneFrame(resp)
    ensures |resp| >= 6 && Parse(resp).value.command == Command(resp[2..4], resp[4..6], resp[6..])
  {
    var n := |resp|;
    SliceOfSlice(resp, 2, n, 0, 2);
    SliceOfSlice(resp, 2, n, 2, 4);
    SliceOfSlice(resp, 2, n, 4, n - 2);
    assert resp[6..n] == resp[6..];
  }

  lemma OneFrameSplits(out: bytes)
    ensures OneFrame(out) <==> |Split(out)| == 1 && Residue(out) == []
    ensures OneFrame(out) ==> Split(out) == [Parse(out).value.command]
  {
    assert Parse([]).None? && Split([]) == [] && Residue([]) == [];
    SplitStep(out);
    if Parse(out).Some? {
      var rest := out[Parse(out).value.length..];
      SplitStep(rest);
      hide Parse, Split, Residue;
      if rest == [] {
        assert [Parse(out).value.command] + [] == [Parse(out).value.command];
      }
    }
  }

  /** Nothing to decode left behind, and one command decoded per byte string, after each of them. */
  ghost predicate Aligned(outs: seq<bytes>) {
    forall k | 0 <= k <= |outs| :: |Split(Flatten(outs[..k]))| == k && Residue(Flatten(outs[..k])) == []
  }

  /** The commands that byte strings of one frame each are decoded as. */
  function Decoded(outs: seq<bytes>): seq<Command>
    requires forall i | 0 <= i < |outs| :: OneFrame(outs[i])
  {
    seq(|outs|, i requires 0 <= i < |outs| && OneFrame(outs[i]) => Parse(outs[i]).value.command)
  }

  lemma OneMoreOut(outs: seq<bytes>, k: nat)
    requires k < |outs| && Residue(Flatten(outs[..k])) == []
    ensures Split(Flatten(outs[..k + 1])) == Split(Flatten(outs[..k])) + Split(outs[k])
    ensures Residue(Flatten(outs[..k + 1])) == Residue(outs[k])
  {
    assert outs[..k + 1] == outs[..k] + [outs[k]];
    FlattenSnoc(outs[..k], outs[k]);
    SplitAppend(Flatten(outs[..k]), outs[k]);
    assert [] + outs[k] == outs[k];
    hide *;
  }

  lemma DecodedNext(outs: seq<bytes>, k: nat)
    requires k < |outs| && forall i | 0 <= i < |outs| :: OneFrame(outs[i])
    ensures |Decoded(outs)| == |outs|
    ensures Decoded(outs)[..k + 1] == Decoded(outs)[..k] + [Parse(outs[k]).value.command]
  {
    assert Decoded(outs)[k] == Parse(outs[k]).value.command;
  }

  lemma {:induction false} FramesSplit(outs: seq<bytes>, k: nat)
    requires k <= |outs| && forall i | 0 <= i < |outs| :: OneFrame(outs[i])
    ensures Split(Flatten(outs[..k])) == Decoded(outs)[..k] && Residue(Flatten(outs[..k])) == []
  {
    if k == 0 {
      assert Flatten(outs[..0]) == [] && Parse([]).None?;
    } else {
      hide Split, Residue, Flatten, Parse, OneFrame, Decoded;
      FramesSplit(outs, k - 1);
      OneMoreOut(outs, k - 1);
      OneFrameSplits(outs[k - 1]);
      DecodedNext(outs, k - 1);
    }
  }

  /** A client that reads after every answer is always exactly up to date if and only if each answer
      is one frame. */
  lemma AlignedExactly(outs: seq<bytes>)
    ensures Aligned(outs) <==> forall i | 0 <= i < |outs| :: OneFrame(outs[i])
  {
    if Aligned(outs) {
      forall i | 0 <= i < |outs| ensures OneFrame(outs[i]) {
        assert |Split(Flatten(outs[..i]))| == i && |Split(Flatten(outs[..i + 1]))| == i + 1;
        OneMoreOut(outs, i);
        OneFrameSplits(outs[i]);
      }
    }
    if forall i | 0 <= i < |outs| :: OneFrame(outs[i]) {
      forall k | 0 <= k <= |outs| ensures |Split(Flatten(outs[..k]))| == k && Residue(Flatten(outs[..k])) == [] {
        FramesSplit(outs, k);
      }
    }
    hide Split, Residue, Flatten, OneFrame;
  }

  /** And it decodes each answer's own command. */
  lemma FramesDecode(outs: seq<bytes>)
    requires forall i | 0 <= i < |outs| :: OneFrame(outs[i])
    ensures Split(Flatten(outs)) == Decoded(outs) && Residue(Flatten(outs)) == []
  {
    FramesSplit(outs, |outs|);
    assert outs[..|outs|] == outs && Decoded(outs)[..|outs|] == Decoded(outs);
  }
}
