/** The outbound exchange (exchange_with_hsm in src/hsm_client.rs): read until one reply is complete. */
module Exchange {
  import opened Bytes
  import opened Framing
  import opened Connection

  const MAX_HSM_RESPONSE: nat := 256 * 1024
  const HSM_READ_BUFFER: nat := 65536

  lemma FlattenPrefix(chunks: seq<bytes>, m: nat, n: nat)
    requires m <= n <= |chunks|
    ensures Flatten(chunks[..m]) <= Flatten(chunks[..n])
  {
    assert chunks[..n] == chunks[..m] + chunks[m..n];
    FlattenAppend(chunks[..m], chunks[m..n]);
  }

  /** Completeness never goes away, and the declared length never changes. */
  lemma CompleteStable(a: bytes, b: bytes)
    requires IsResponseComplete(a) && a <= b
    ensures IsResponseComplete(b) && Declared(b) == Declared(a)
  {
  }

  /** How many reads the loop makes, `used` of them already made: until a frame is complete or the
      peer closes. */
  function Received(chunks: seq<bytes>, used: nat): (r: nat)
    requires used <= |chunks|
    ensures used <= r <= |chunks|
    decreases |chunks| - used
  {
    if used == |chunks| || chunks[used] == [] || IsResponseComplete(Flatten(chunks[..used])) then used
    else Received(chunks, used + 1)
  }

  /** The reply that those reads make. */
  function Relayed(chunks: seq<bytes>): bytes {
    Flatten(chunks[..Received(chunks, 0)])
  }

  lemma ReceivedStep(chunks: seq<bytes>, used: nat)
    requires used <= |chunks|
    ensures used < |chunks| && chunks[used] != [] && !IsResponseComplete(Flatten(chunks[..used]))
            ==> Received(chunks, used) == Received(chunks, used + 1)
    ensures used == |chunks| || chunks[used] == [] || IsResponseComplete(Flatten(chunks[..used]))
            ==> Received(chunks, used) == used
  {
  }

  /** The read loop. The reply is the shortest run of whole reads that holds the first frame,
      or everything when the peer closes early. The response cap is never reached. */
  method ReadReply(chunks: seq<bytes>) returns (resp: bytes, used: nat, bailed: bool)
    requires forall i | 0 <= i < |chunks| :: |chunks[i]| <= 65536
    ensures !bailed
    ensures used == Received(chunks, 0) && resp == Relayed(chunks) == Flatten(chunks[..used]) && resp <= Stream(chunks)
    ensures forall k | 0 <= k < used :: !IsResponseComplete(Flatten(chunks[..k]))
    ensures IsResponseComplete(resp) <==> IsResponseComplete(Stream(chunks))
    ensures !IsResponseComplete(resp) ==> resp == Stream(chunks)
    ensures |resp| <= 131072
  {
    hide *;
    resp, used, bailed := [], 0, false;
    Start(chunks);
    Incomplete([]);
    while used < |chunks| && chunks[used] != []
      invariant used <= |chunks| && !bailed && |resp| <= HSM_READ_BUFFER
      invariant forall i | 0 <= i < used :: chunks[i] != []
      invariant resp == Flatten(chunks[..used]) && Received(chunks, 0) == Received(chunks, used)
      invariant forall k | 0 <= k <= used :: !IsResponseComplete(Flatten(chunks[..k]))
    {
      FlattenNext(chunks, used);
      Incomplete(resp);
      ReceivedStep(chunks, used);
      resp := resp + chunks[used];
      used := used + 1;
      if IsResponseComplete(resp) {
        break;
      }
      Incomplete(resp);
      bailed := |resp| > MAX_HSM_RESPONSE;
      if bailed {
        break;
      }
    }
    ReceivedStep(chunks, used);
    RelayedMeans(chunks);
    StreamPrefix(chunks, used);
    ReplyOfStream(resp, Stream(chunks[used..]));
  }

  lemma RelayedMeans(chunks: seq<bytes>)
    ensures Relayed(chunks) == Flatten(chunks[..Received(chunks, 0)])
  {
  }

  lemma Start(chunks: seq<bytes>)
    ensures Flatten(chunks[..0]) == [] && !IsResponseComplete([])
  {
  }

  lemma Incomplete(resp: bytes)
    ensures !IsResponseComplete(resp) ==> |resp| <= HSM_READ_BUFFER <= MAX_HSM_RESPONSE
    ensures HSM_READ_BUFFER == 65536
  {
  }

  lemma ReplyOfStream(resp: bytes, more: bytes)
    ensures resp <= resp + more
    ensures IsResponseComplete(resp) ==> IsResponseComplete(resp + more)
    ensures more == [] ==> resp + more == resp
  {
    if IsResponseComplete(resp) {
      CompleteStable(resp, resp + more);
    }
  }

  /** The last of the first `used` reads, if there is one, that ended at byte `n` of the stream. */
  function ReadEnding(chunks: seq<bytes>, used: nat, n: nat): (r: Option<nat>)
    requires used <= |chunks|
    ensures r.Some? ==> r.value <= used && |Flatten(chunks[..r.value])| == n
    ensures r.None? ==> |Flatten(chunks[..used])| != n
    decreases used
  {
    if |Flatten(chunks[..used])| == n then Some(used)
    else if used == 0 then None
    else ReadEnding(chunks, used - 1, n)
  }

  /** No fewer reads would have been enough. */
  ghost predicate IncompleteBefore(chunks: seq<bytes>, used: nat)
    requires used <= |chunks|
  {
    forall k | 0 <= k < used :: !IsResponseComplete(Flatten(chunks[..k]))
  }

  function FirstFrame(stream: bytes): (f: bytes)
    requires IsResponseComplete(stream)
    ensures f <= stream
  {
    stream[..Declared(stream) + 2]
  }

  lemma PrefixOfLength(resp: bytes, stream: bytes)
    requires resp <= stream && IsResponseComplete(resp) && IsResponseComplete(stream)
    ensures resp == FirstFrame(stream) <==> |resp| == Declared(stream) + 2
  {
    assert Declared(resp) == Declared(stream);
  }

  lemma CutComplete(cut: bytes, resp: bytes, stream: bytes)
    requires cut <= resp <= stream && IsResponseComplete(resp)
    ensures Declared(stream) + 2 <= |resp|
    ensures |cut| >= Declared(stream) + 2 ==> IsResponseComplete(cut)
  {
    assert Declared(resp) == Declared(stream);
    if |cut| >= 2 {
      assert Declared(cut) == Declared(stream);
    }
  }

  lemma EndsOnlyThere(chunks: seq<bytes>, used: nat, k: nat)
    requires k <= used <= |chunks| && Flatten(chunks[..used]) <= Stream(chunks)
    requires IncompleteBefore(chunks, used) && IsResponseComplete(Flatten(chunks[..used])) && |Stream(chunks)| >= 2
    requires |Flatten(chunks[..k])| == Declared(Stream(chunks)) + 2
    ensures k == used
  {
    hide Flatten, Stream;
    FlattenPrefix(chunks, k, used);
    CutComplete(Flatten(chunks[..k]), Flatten(chunks[..used]), Stream(chunks));
  }

  /** What `ReadReply` returns is the first frame and nothing else if and only if some read ended
      where the frame does; otherwise bytes of a later message come along with it. */
  lemma BareFrame(chunks: seq<bytes>, used: nat)
    requires used <= |chunks| && Flatten(chunks[..used]) <= Stream(chunks)
    requires IncompleteBefore(chunks, used) && IsResponseComplete(Flatten(chunks[..used]))
    ensures IsResponseComplete(Stream(chunks))
    ensures Flatten(chunks[..used]) == FirstFrame(Stream(chunks))
       <==> ReadEnding(chunks, used, Declared(Stream(chunks)) + 2).Some?
  {
    CompleteStable(Flatten(chunks[..used]), Stream(chunks));
    PrefixOfLength(Flatten(chunks[..used]), Stream(chunks));
    hide Flatten, Stream, ReadEnding, FirstFrame, Declared;
    var end := ReadEnding(chunks, used, Declared(Stream(chunks)) + 2);
    if end.Some? {
      EndsOnlyThere(chunks, used, end.value);
    }
  }

  /** A peer that sends one frame and no more is relayed exactly, and its client decodes one
      command from it if and only if the frame declares at least header and code. */
  lemma OneFrameRelayed(resp: bytes, stream: bytes, tail: bytes)
    requires IsResponseComplete(stream) && |stream| == Declared(stream) + 2
    requires resp <= stream && IsResponseComplete(resp)
    ensures resp == stream
    ensures Parse(resp + tail).Some? && Parse(resp + tail).value.length == |resp| <==> !Doomed(stream)
  {
    assert Declared(resp) == Declared(stream);
    assert Declared(resp + tail) == Declared(stream);
  }

  // ------------------------------------------------- when a reply is one frame

  lemma {:induction false} ReceivedFacts(chunks: seq<bytes>, used: nat)
    requires used <= |chunks|
    requires forall k | 0 <= k < used :: chunks[k] != [] && !IsResponseComplete(Flatten(chunks[..k]))
    ensures forall k | 0 <= k < Received(chunks, used) ::
              chunks[k] != [] && !IsResponseComplete(Flatten(chunks[..k]))
    ensures var n := Received(chunks, used);
            n == |chunks| || chunks[n] == [] || IsResponseComplete(Flatten(chunks[..n]))
    decreases |chunks| - used
  {
    ReceivedStep(chunks, used);
    hide Received, Flatten, IsResponseComplete;
    if used < |chunks| && chunks[used] != [] && !IsResponseComplete(Flatten(chunks[..used])) {
      ReceivedFacts(chunks, used + 1);
    }
  }

  /** What is relayed of a peer's stream: a prefix of it, all of it unless a frame is complete. */
  lemma RelayedPrefix(chunks: seq<bytes>)
    ensures Relayed(chunks) <= Stream(chunks)
    ensures IncompleteBefore(chunks, Received(chunks, 0))
    ensures IsResponseComplete(Relayed(chunks)) || Relayed(chunks) == Stream(chunks)
  {
    ReceivedFacts(chunks, 0);
    var n := Received(chunks, 0);
    StreamPrefix(chunks, n);
    ReplyOfStream(Relayed(chunks), Stream(chunks[n..]));
    hide Received, Flatten, Stream, IsResponseComplete;
  }

  /** The peer sends a frame that declares at least header and code, and a read ends where it does. */
  function FrameReadAlone(chunks: seq<bytes>): Option<nat> {
    if IsResponseComplete(Stream(chunks)) && Declared(Stream(chunks)) >= 4
    then ReadEnding(chunks, Received(chunks, 0), Declared(Stream(chunks)) + 2)
    else None
  }

  /** A relayed reply is one frame to the client exactly when that is so. */
  lemma RelayedIsFrame(chunks: seq<bytes>)
    ensures OneFrame(Relayed(chunks)) <==> FrameReadAlone(chunks).Some?
  {
    RelayedPrefix(chunks);
    RelayedMeans(chunks);
    OneFrameMeans(Relayed(chunks));
    var resp, stream := Relayed(chunks), Stream(chunks);
    if IsResponseComplete(resp) {
      BareFrame(chunks, Received(chunks, 0));
      PrefixOfLength(resp, stream);
      CompleteStable(resp, stream);
    }
    hide Received, Relayed, Flatten, Stream, ReadEnding, FirstFrame, Declared, OneFrame, IncompleteBefore;
  }
}
