/** EMV helpers of src/handlers/thales/common.rs: method-2 padding and the PAN / PAN-sequence field. */
module Emv {
  import opened Bytes

  // ---------------------------------------------------------------- padding

  function Zeros(n: nat): (z: bytes)
    ensures |z| == n
  {
    seq(n, _ => 0)
  }

  /** Padding method 2 (section 6.3.3 of ISO/IEC 9797-1:2011): one 0x80, then zeros. */
  function Padded(data: bytes): (p: bytes)
    ensures |p| % 8 == 0
    ensures |data| < |p| <= |data| + 8
    ensures p[..|data|] == data && p[|data|] == 0x80
    ensures forall i | |data| < i < |p| :: p[i] == 0
  {
    data + [0x80] + Zeros(7 - |data| % 8)
  }

  method EmvPad(data: bytes) returns (out: bytes)
    ensures out == Padded(data)
  {
    out := data + [0x80];
    while |out| % 8 != 0
      invariant |data| < |out| <= |data| + 1 + (7 - |data| % 8)
      invariant out == data + [0x80] + Zeros(|out| - |data| - 1)
      decreases |data| + 8 - |out|
    {
      out := out + [0];
    }
  }

  function Unpad(p: bytes): Option<bytes> {
    if p == [] then None
    else if p[|p| - 1] == 0 then Unpad(p[..|p| - 1])
    else if p[|p| - 1] == 0x80 then Some(p[..|p| - 1])
    else None
  }

  lemma {:induction false} UnpadZeros(data: bytes, n: nat)
    ensures Unpad(data + [0x80] + Zeros(n)) == Some(data)
  {
    var p := data + [0x80] + Zeros(n);
    if n == 0 {
      assert p[..|p| - 1] == data;
    } else {
      assert p[..|p| - 1] == data + [0x80] + Zeros(n - 1);
      UnpadZeros(data, n - 1);
    }
  }

  /** The padding can be taken off again, so it never merges two inputs. */
  lemma UnpadPadded(data: bytes)
    ensures Unpad(Padded(data)) == Some(data)
  {
    UnpadZeros(data, 7 - |data| % 8);
  }

  /** No shorter multiple of eight bytes extends the data at all. */
  lemma PaddedShortest(data: bytes, other: bytes)
    requires data < other && |other| % 8 == 0
    ensures |Padded(data)| <= |other|
  {
  }

  /** What is forwarded as hex determines the wire data. */
  lemma ForwardedInjective(a: bytes, b: bytes)
    requires Hex(Padded(a)) == Hex(Padded(b))
    ensures a == b
  {
    HexInjective(Padded(a), Padded(b));
    UnpadPadded(a);
    UnpadPadded(b);
  }

  // ------------------------------------------------------ PAN and its sequence

  type Field8 = s: bytes | |s| == 8 witness Zeros(8)

  const ZERO: byte := 0x30

  /** `trim_start_matches('0')` */
  function TrimZeros(s: bytes): bytes {
    if s != [] && s[0] == ZERO then TrimZeros(s[1..]) else s
  }

  function DecodePanSeq(field: Field8): (r: (bytes, bytes))
    ensures |r.1| == 2 && |r.0| <= 14
  {
    var hex := Hex(field);
    TrimShorter(hex[..14]);
    (TrimZeros(hex[..14]), hex[14..16])
  }

  lemma TrimShorter(s: bytes)
    ensures |TrimZeros(s)| <= |s|
  {
  }

  /** Left-pad with '0' to a width. */
  function ZeroFill(s: bytes, width: nat): (r: bytes)
    ensures |r| >= width
    decreases width - |s|
  {
    if |s| >= width then s else ZeroFill([ZERO] + s, width)
  }

  lemma {:induction false} FillTrimmed(s: bytes, tail: bytes)
    ensures ZeroFill(TrimZeros(s) + tail, |s| + |tail|) == s + tail
  {
    if s != [] && s[0] == ZERO {
      var t := TrimZeros(s[1..]) + tail;
      FillTrimmed(s[1..], tail);
      TrimShorter(s[1..]);
      FillOneMore(t, |s| - 1 + |tail|);
      assert [ZERO] + (s[1..] + tail) == s + tail;
    }
  }

  lemma {:induction false} FillOneMore(t: bytes, width: nat)
    requires |t| <= width
    ensures ZeroFill(t, width + 1) == [ZERO] + ZeroFill(t, width)
    decreases width - |t|
  {
    if |t| < width {
      FillOneMore([ZERO] + t, width);
    }
  }

  /** Stripping the Option A zeros loses nothing: the right-most sixteen digits of PAN and
      sequence number, filled with zeros, are the field again (EMV Book 2 Annex A1.4.1). */
  lemma DerivationInputKept(field: Field8)
    ensures var (pan, seqNo) := DecodePanSeq(field);
            ZeroFill(pan + seqNo, 16) == Hex(field)
  {
    var hex := Hex(field);
    FillTrimmed(hex[..14], hex[14..16]);
    assert hex[..14] + hex[14..16] == hex;
  }

  predicate Decimal(s: bytes) {
    forall i | 0 <= i < |s| :: 0x30 <= s[i] <= 0x39
  }

  lemma HexCons(first: byte, tail: bytes)
    ensures Hex([first] + tail) == [Digit(first / 16), Digit(first % 16)] + Hex(tail)
  {
    assert ([first] + tail)[1..] == tail;
  }

  lemma UnhexCons(h: bytes, tail: bytes)
    requires |h| >= 2 && 0x30 <= h[0] <= 0x39 && 0x30 <= h[1] <= 0x39 && Unhex(h[2..]) == Some(tail)
    ensures Unhex(h) == Some([(h[0] - 0x30) * 16 + (h[1] - 0x30)] + tail)
  {
  }

  lemma DigitPair(a: nat, b: nat)
    requires a < 10 && b < 10
    ensures (a * 16 + b) / 16 == a && (a * 16 + b) % 16 == b && Digit(a) == 0x30 + a && Digit(b) == 0x30 + b
  {
  }

  /** Two decimal digits make the byte whose hex form they are. */
  lemma HexStep(h: bytes, tail: bytes)
    requires |h| >= 2 && 0x30 <= h[0] <= 0x39 && 0x30 <= h[1] <= 0x39 && Unhex(h[2..]) == Some(tail)
    ensures Unhex(h).Some? && |Unhex(h).value| == |tail| + 1 && Hex(Unhex(h).value) == [h[0], h[1]] + Hex(tail)
  {
    hide *;
    UnhexCons(h, tail);
    DigitPair(h[0] - 0x30, h[1] - 0x30);
    HexCons((h[0] - 0x30) * 16 + (h[1] - 0x30), tail);
  }

  lemma {:induction false} HexOfUnhex(h: bytes)
    requires Decimal(h) && |h| % 2 == 0
    ensures Unhex(h).Some? && |Unhex(h).value| == |h| / 2 && Hex(Unhex(h).value) == h
  {
    if h != [] {
      HexOfUnhex(h[2..]);
      HexStep(h, Unhex(h[2..]).value);
      assert [h[0], h[1]] + h[2..] == h;
      hide Hex, Decimal;
    }
  }

  lemma {:induction false} FillDecimal(s: bytes, width: nat)
    requires Decimal(s) && |s| <= width
    ensures Decimal(ZeroFill(s, width)) && |ZeroFill(s, width)| == width
    ensures ZeroFill(s, width)[width - |s|..] == s
    ensures forall i | 0 <= i < width - |s| :: ZeroFill(s, width)[i] == ZERO
    decreases width - |s|
  {
    if |s| < width {
      FillDecimal([ZERO] + s, width);
      var r := ZeroFill(s, width);
      assert r[width - |s| - 1..] == [ZERO] + s;
      assert r[width - |s|..] == r[width - |s| - 1..][1..];
    }
  }

  lemma {:induction false} TrimFilled(s: bytes, n: nat)
    requires n <= |s| && (forall i | 0 <= i < n :: s[i] == ZERO)
    requires n < |s| && s[n] != ZERO
    ensures TrimZeros(s) == s[n..]
  {
    if n > 0 {
      TrimFilled(s[1..], n - 1);
      assert s[1..][n - 1..] == s[n..];
    }
  }

  /** Packing a PAN of one to fourteen digits with its sequence number is decoded back to both. */
  lemma PackedDecodes(pan: bytes, seqNo: bytes)
    requires 1 <= |pan| <= 14 && Decimal(pan) && pan[0] != ZERO
    requires |seqNo| == 2 && Decimal(seqNo)
    ensures var packed := Unhex(ZeroFill(pan + seqNo, 16));
            packed.Some? && |packed.value| == 8 && DecodePanSeq(packed.value) == (pan, seqNo)
  {
    var digits := ZeroFill(pan + seqNo, 16);
    FillDecimal(pan + seqNo, 16);
    HexOfUnhex(digits);
    var n := 14 - |pan|;
    LastTwo(digits, pan, seqNo, n);
    TrimFilled(digits[..14], n);
    hide ZeroFill, TrimZeros, Unhex, Hex, Decimal;
  }

  lemma LastTwo(digits: bytes, pan: bytes, seqNo: bytes, n: nat)
    requires |digits| == 16 && |pan| >= 1 && |seqNo| == 2 && n + |pan| == 14 && digits[n..] == pan + seqNo
    ensures digits[14..16] == seqNo && digits[..14][n..] == pan && digits[..14][n] == pan[0]
  {
    assert digits[14..16] == digits[n..][|pan|..] == seqNo;
    assert digits[..14][n..] == digits[n..][..|pan|] == pan;
  }
}
