/** GO, DUKPT PIN verification: a grammar whose later offsets depend on the KSN it reads
    (src/handlers/thales/dukpt_pin_verify_aes.rs). */
module DukptPin {
  import opened Bytes
  import opened Reader
  import opened Keys
  import opened Apc
  import PinChange

  datatype GoFields = GoFields(
    bdk: KeyDescriptor, pvk: KeyDescriptor, ksn: bytes, derivation: Derivation, pin: PinPart)

  function ModeEnd(payload: bytes): (r: Result<nat>)
    ensures r.Ok? ==> r.value == 1 <= |payload|
  {
    if payload == [] then Err(MalformedPayload)
    else if payload[0] == 0x30 || payload[0] == 0x32 then Ok(1)
    else if payload[0] == 0x31 then Err(Unsupported)
    else Err(MalformedPayload)
  }

  function BlockLength(derivation: Derivation): nat {
    if derivation.Aes128? then 32 else 16
  }

  /** A format code, '04' (Plus) being the one APC lacks. */
  function FormatAt(payload: bytes, pos: nat): (r: Result<PinFormat>)
    ensures r.Ok? ==> pos + 2 <= |payload|
  {
    if |payload| < pos + 2 then Err(MalformedPayload)
    else if !ValidUtf8(payload[pos..pos + 2]) then Err(MalformedPayload)
    else if payload[pos..pos + 2] == [0x30, 0x34] then Err(Unsupported)
    else PinChange.FormatOf(payload[pos..pos + 2])
  }

  /** `payload.get(pos) == Some(&b)` */
  predicate ByteAt(payload: bytes, pos: nat, b: byte) {
    pos < |payload| && payload[pos] == b
  }

  /** What follows the KSN. */
  datatype PinPart = PinPart(
    block: bytes, format: PinFormat, account: bytes, decimalization: bytes, validation: bytes, offset: bytes)

  /** Every offset computed from the ones before it; the length is checked last, after the single
      bytes that select unsupported forms. */
  function ParsePin(payload: bytes, blockStart: nat, derivation: Derivation): Result<PinPart> {
    var formatStart := blockStart + BlockLength(derivation);
    var format :- FormatAt(payload, formatStart);
    var accountStart := formatStart + 4;
    var decimalizationStart := accountStart + 12;
    if ByteAt(payload, decimalizationStart, 0x4B) || ByteAt(payload, decimalizationStart, 0x4C)
    then Err(MalformedPayload)
    else
      var validationStart := decimalizationStart + 16;
      if ByteAt(payload, validationStart, 0x50) then Err(MalformedPayload)
      else
        var offsetStart := validationStart + 12;
        if |payload| < offsetStart + 12 then Err(MalformedPayload)
        else Ok(PinPart(
          payload[blockStart..formatStart], format,
          payload[accountStart..decimalizationStart], payload[decimalizationStart..validationStart],
          payload[validationStart..offsetStart], payload[offsetStart..offsetStart + 12]))
  }

  function ParseGo(payload: bytes): Result<GoFields> {
    var pos :- ModeEnd(payload);
    var (bdk, bdkLen) :- KeyField(Bdk, payload[pos..]);
    var (pvk, pvkLen) :- KeyField(Legacy, payload[pos + bdkLen..]);
    var ksnStart := pos + bdkLen + pvkLen;
    var ((ksn, derivation), ksnUsed) :- KsnField(payload[ksnStart..]);
    var pin :- ParsePin(payload, ksnStart + ksnUsed, derivation);
    Ok(GoFields(bdk, pvk, ksn, derivation, pin))
  }

  // ------------------------------------------------------- printed requests

  datatype PinWire = PinWire(
    block: bytes, format: bytes, check: bytes, account: bytes, decimalization: bytes, validation: bytes, offset: bytes)
  {
    predicate Printable(derivation: Derivation) {
      && |block| == (if derivation.Aes128? then 32 else 16)
      && |format| == 2 && PinChange.FormatOf(format).Ok? && |check| == 2 && |account| == 12
      && |decimalization| == 16 && decimalization[0] != 0x4B && decimalization[0] != 0x4C
      && |validation| == 12 && validation[0] != 0x50 && |offset| == 12
    }

    function Print(tail: bytes): bytes {
      block + (format + (check + (account + (decimalization + (validation + (offset + tail))))))
    }

    function Meaning(derivation: Derivation): PinPart
      requires Printable(derivation)
    {
      PinPart(block, PinChange.FormatOf(format).value, account, decimalization, validation, offset)
    }
  }

  datatype GoWire = GoWire(
    mode: byte, bdk: bytes, pvk: bytes, ksnKind: byte, ksnDigits: bytes, ksn: bytes, pin: PinWire)
  {
    predicate Printable() {
      && (mode == 0x30 || mode == 0x32) && IsKey(Bdk, bdk) && IsKey(Legacy, pvk)
      && KsnPrintable(ksnDigits, ksn) && pin.Printable(DerivationOf(ksn))
    }

    function Print(tail: bytes): bytes {
      [mode] + (bdk + (pvk + ([ksnKind] + (ksnDigits + (ksn + pin.Print(tail))))))
    }

    function Meaning(): GoFields
      requires Printable()
    {
      GoFields(Described(Bdk, bdk), Described(Legacy, pvk), ksn, DerivationOf(ksn), pin.Meaning(DerivationOf(ksn)))
    }
  }

  /** An accepted format code is plain ASCII and not the one rejected as unsupported. */
  lemma FormatAccepted(payload: bytes, pos: nat, code: bytes)
    requires pos + 2 <= |payload| && payload[pos..pos + 2] == code
    ensures FormatAt(payload, pos).Ok? <==> PinChange.FormatOf(code).Ok?
    ensures FormatAt(payload, pos).Ok? ==> FormatAt(payload, pos) == PinChange.FormatOf(code)
  {
    if PinChange.FormatOf(code).Ok? {
      assert ValidUtf8(code[1..][1..]);
      assert ValidUtf8(code[1..]);
      assert ValidUtf8(code);
    }
  }

  /** What GO has no APC form for: PIN mode '1', and the Plus format '04'. */
  lemma GoUnsupported(payload: bytes, pos: nat)
    ensures ModeEnd(payload) == Err(Unsupported) <==> payload != [] && payload[0] as char == '1'
    ensures FormatAt(payload, pos) == Err(Unsupported)
       <==> pos + 2 <= |payload| && payload[pos..pos + 2] == Code('0', '4')
  {
    if pos + 2 <= |payload| && payload[pos..pos + 2] == Code('0', '4') {
      assert ValidUtf8(Code('0', '4')[1..][1..]);
      assert ValidUtf8(Code('0', '4')[1..]);
    }
  }

  /** The printed fields, at the offsets the parser computes: first the PIN block and its format, */
  lemma BlockSlices(w: PinWire, p: bytes, start: nat, r: bytes)
    requires |w.format| == 2 && |w.check| == 2
    requires start <= |p| && p[start..] == w.block + (w.format + (w.check + r))
    ensures var f := start + |w.block|;
            f + 4 <= |p| && p[start..f] == w.block && p[f..f + 2] == w.format && p[f + 4..] == r
  {
    var f := start + |w.block|;
    Piece(p, start, w.block, w.format + (w.check + r));
    Piece(p, f, w.format, w.check + r);
    Piece(p, f + 2, w.check, r);
  }

  /** then the account and the IBM 3624 fields. */
  lemma AccountSlices(w: PinWire, p: bytes, a: nat, tail: bytes)
    requires |w.account| == 12 && |w.decimalization| == 16 && |w.validation| == 12 && |w.offset| == 12
    requires a <= |p| && p[a..] == w.account + (w.decimalization + (w.validation + (w.offset + tail)))
    ensures |p| == a + 52 + |tail| && p[a..a + 12] == w.account && p[a + 12..a + 28] == w.decimalization
    ensures p[a + 28..a + 40] == w.validation && p[a + 40..a + 52] == w.offset
  {
    Piece(p, a, w.account, w.decimalization + (w.validation + (w.offset + tail)));
    Piece(p, a + 12, w.decimalization, w.validation + (w.offset + tail));
    Piece(p, a + 28, w.validation, w.offset + tail);
    Piece(p, a + 40, w.offset, tail);
  }

  lemma Piece(p: bytes, at: nat, piece: bytes, rest: bytes)
    requires at <= |p| && p[at..] == piece + rest
    ensures at + |piece| <= |p| && p[at..at + |piece|] == piece && p[at + |piece|..] == rest
  {
    assert p[at..][..|piece|] == piece && p[at..][|piece|..] == rest;
  }

  lemma PinPrinted(w: PinWire, d: Derivation, head: bytes, tail: bytes)
    requires w.Printable(d)
    ensures ParsePin(head + w.Print(tail), |head|, d) == Ok(w.Meaning(d))
  {
    var p, f := head + w.Print(tail), |head| + BlockLength(d);
    assert p[|head|..] == w.Print(tail);
    BlockSlices(w, p, |head|, w.account + (w.decimalization + (w.validation + (w.offset + tail))));
    AccountSlices(w, p, f + 4, tail);
    FormatAccepted(p, f, w.format);
    assert p[f + 16] == p[f + 16..f + 32][0] && p[f + 32] == p[f + 32..f + 44][0];
    hide FormatAt, PinWire.Print, PinChange.FormatOf;
  }

  lemma KsnFieldPrinted(kind: byte, digits: bytes, ksn: bytes, tail: bytes)
    requires KsnPrintable(digits, ksn)
    ensures KsnField([kind] + (digits + (ksn + tail))) == Ok(((ksn, DerivationOf(ksn)), 3 + |ksn|))
  {
    var p := [kind] + (digits + (ksn + tail));
    assert p == ([kind] + digits) + ksn + tail;
    assert p[1..3] == digits && p[3..3 + |ksn|] == ksn;
  }

  lemma Regrouped(a: bytes, b: bytes, c: bytes, d: bytes, e: bytes, f: bytes, x: bytes)
    ensures a + (b + (c + (d + (e + (f + x))))) == (a + b + c + d + e + f) + x
  {
    assert d + (e + (f + x)) == (d + e + f) + x;
    assert a + (b + (c + ((d + e + f) + x))) == (a + b + c) + (d + e + f) + x;
    assert (a + b + c) + (d + e + f) == a + b + c + d + e + f;
  }

  /** The rest of a printed request after its mode, after its BDK and after its PVK. */
  lemma Suffixes(mode: byte, bdk: bytes, pvk: bytes, rest: bytes)
    ensures var p := [mode] + (bdk + (pvk + rest));
            && p[1..] == bdk + (pvk + rest) && p[1 + |bdk|..] == pvk + rest && p[1 + |bdk| + |pvk|..] == rest
  {
    var p := [mode] + (bdk + (pvk + rest));
    assert p == ([mode] + bdk) + (pvk + rest);
    assert p == ([mode] + bdk + pvk) + rest;
  }

  /** Parsing a printed GO request gives its fields, whatever follows it. */
  lemma GoRoundTrip(w: GoWire, tail: bytes)
    requires w.Printable()
    ensures ParseGo(w.Print(tail)) == Ok(w.Meaning())
  {
    hide KeyField, KsnField, ParsePin, PinWire.Print, PinWire.Meaning, PinWire.Printable, DerivationOf, IsKey,
         Described, KsnPrintable;
    var pin := w.pin.Print(tail);
    var ksnPart := [w.ksnKind] + (w.ksnDigits + (w.ksn + pin));
    Suffixes(w.mode, w.bdk, w.pvk, ksnPart);
    KeyAppend(Bdk, w.bdk, w.pvk + ksnPart);
    KeyAppend(Legacy, w.pvk, ksnPart);
    KsnFieldPrinted(w.ksnKind, w.ksnDigits, w.ksn, pin);
    assert |w.ksnDigits| == 2 by {
      DigitsWidth(w.ksnDigits, w.ksn);
    }
    var head := [w.mode] + w.bdk + w.pvk + [w.ksnKind] + w.ksnDigits + w.ksn;
    PinPrinted(w.pin, DerivationOf(w.ksn), head, tail);
    Regrouped([w.mode], w.bdk, w.pvk, [w.ksnKind], w.ksnDigits, w.ksn, pin);
  }

  lemma DigitsWidth(digits: bytes, ksn: bytes)
    requires KsnPrintable(digits, ksn)
    ensures |digits| == 2
  {
  }

  lemma PinExact(payload: bytes, blockStart: nat, d: Derivation) returns (w: PinWire, tail: bytes)
    requires blockStart <= |payload| && ParsePin(payload, blockStart, d).Ok?
    ensures w.Printable(d) && payload[blockStart..] == w.Print(tail)
    ensures ParsePin(payload, blockStart, d).value == w.Meaning(d)
  {
    var f := blockStart + BlockLength(d);
    w := PinWire(payload[blockStart..f], payload[f..f + 2], payload[f + 2..f + 4], payload[f + 4..f + 16],
                 payload[f + 16..f + 32], payload[f + 32..f + 44], payload[f + 44..f + 56]);
    tail := payload[f + 56..];
    FormatAccepted(payload, f, w.format);
    Cut(payload, blockStart, f);
    Cut(payload, f, f + 2);
    Cut(payload, f + 2, f + 4);
    Cut(payload, f + 4, f + 16);
    Cut(payload, f + 16, f + 32);
    Cut(payload, f + 32, f + 44);
    Cut(payload, f + 44, f + 56);
    Joined(w, tail, payload[blockStart..], payload[f..], payload[f + 2..], payload[f + 4..], payload[f + 16..],
           payload[f + 32..], payload[f + 44..]);
    hide FormatAt, PinChange.FormatOf, PinWire.Print;
  }

  lemma Cut(payload: bytes, from: nat, to: nat)
    requires from <= to <= |payload|
    ensures payload[from..] == payload[from..to] + payload[to..]
  {
  }

  lemma Joined(w: PinWire, tail: bytes, r0: bytes, r1: bytes, r2: bytes, r3: bytes, r4: bytes, r5: bytes, r6: bytes)
    requires r0 == w.block + r1 && r1 == w.format + r2 && r2 == w.check + r3 && r3 == w.account + r4
    requires r4 == w.decimalization + r5 && r5 == w.validation + r6 && r6 == w.offset + tail
    ensures r0 == w.Print(tail)
  {
  }

  lemma KsnFieldExact(rest: bytes)
    requires KsnField(rest).Ok?
    ensures var ((ksn, d), used) := KsnField(rest).value;
            && KsnPrintable(rest[1..3], ksn) && d == DerivationOf(ksn) && used == 3 + |ksn|
            && rest == [rest[0]] + (rest[1..3] + (ksn + rest[used..]))
  {
    var ((ksn, _), used) := KsnField(rest).value;
    assert rest[3..] == rest[3..used] + rest[used..];
  }

  /** The three fields before the PIN part, and where each one ends. */
  lemma HeadExact(payload: bytes) returns (bdk: KeyDescriptor, pvk: KeyDescriptor, ksnRest: bytes, blockStart: nat)
    requires ParseGo(payload).Ok?
    ensures var f := ParseGo(payload).value;
            && payload != [] && (payload[0] == 0x30 || payload[0] == 0x32)
            && f.bdk == bdk && f.pvk == pvk && IsKey(Bdk, bdk.raw) && Described(Bdk, bdk.raw) == bdk
            && IsKey(Legacy, pvk.raw) && Described(Legacy, pvk.raw) == pvk
            && KsnField(ksnRest).Ok? && KsnField(ksnRest).value.0 == (f.ksn, f.derivation)
            && blockStart <= |payload| && ParsePin(payload, blockStart, f.derivation) == Ok(f.pin)
            && payload == [payload[0]] + (bdk.raw + (pvk.raw + ksnRest))
            && ksnRest[KsnField(ksnRest).value.1..] == payload[blockStart..]
  {
    hide KeyField, KsnField, ParsePin, IsKey, Described;
    var (b, bdkLen) := KeyField(Bdk, payload[1..]).value;
    KeyExact(Bdk, payload[1..]);
    var (v, pvkLen) := KeyField(Legacy, payload[1 + bdkLen..]).value;
    KeyExact(Legacy, payload[1 + bdkLen..]);
    bdk, pvk, ksnRest := b, v, payload[1 + bdkLen + pvkLen..];
    blockStart := 1 + bdkLen + pvkLen + KsnField(ksnRest).value.1;
    Beyond(payload, 1, bdkLen);
    Beyond(payload, 1 + bdkLen, pvkLen);
    Beyond(payload, 1 + bdkLen + pvkLen, KsnField(ksnRest).value.1);
    assert payload == [payload[0]] + payload[1..];
  }

  lemma Beyond(payload: bytes, i: nat, j: nat)
    requires i + j <= |payload|
    ensures payload[i..][j..] == payload[i + j..]
  {
  }

  /** Conversely every accepted payload is a printed request. */
  lemma GoExact(payload: bytes) returns (w: GoWire, tail: bytes)
    requires ParseGo(payload).Ok?
    ensures w.Printable() && payload == w.Print(tail) && ParseGo(payload).value == w.Meaning()
  {
    hide KeyField, KsnField, ParsePin, ParseGo, PinWire.Print, PinWire.Meaning, PinWire.Printable, DerivationOf, IsKey,
         Described, KsnPrintable;
    var f := ParseGo(payload).value;
    var bdk, pvk, ksnRest, blockStart := HeadExact(payload);
    KsnFieldExact(ksnRest);
    var pin;
    pin, tail := PinExact(payload, blockStart, f.derivation);
    w := GoWire(payload[0], bdk.raw, pvk.raw, ksnRest[0], ksnRest[1..3], f.ksn, pin);
  }
}
