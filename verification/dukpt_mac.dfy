/** GW, DUKPT MAC generate and verify (src/handlers/thales/dukpt_mac.rs). */
module DukptMac {
  import opened Bytes
  import opened Reader
  import opened Keys
  import opened Apc
  import opened Mac

  datatype GwFields = GwFields(
    size: nat, algorithm: MacAlgorithm, bdk: KeyDescriptor, ksn: bytes, derivation: Derivation, message: bytes)

  function SizeOf(size: byte): (r: Result<nat>)
    ensures r.Ok? ==> r.value == 4 || r.value == 2
  {
    if size == 0x30 then Ok(4) else if size == 0x31 then Ok(2) else Err(MalformedPayload)
  }

  /** The selectors after the mode: input format, MAC size, algorithm, padding. */
  function SelectorsFrom(rest: bytes): Result<((nat, MacAlgorithm), bytes)> {
    var rest :- ExpectFrom(rest, 0x31);
    var (sizeByte, rest) :- ByteFrom(rest);
    var size :- SizeOf(sizeByte);
    var (algo, rest) :- ByteFrom(rest);
    var algorithm :- AlgorithmOf(algo);
    var (_, rest) :- ByteFrom(rest);
    Ok(((size, algorithm), rest))
  }

  /** Everything between the mode and the MAC. */
  function BodyFrom(rest: bytes): Result<(GwFields, bytes)> {
    var ((size, algorithm), rest) :- SelectorsFrom(rest);
    var (bdk, rest) :- KeyFrom(Bdk, rest);
    var ((ksn, derivation), rest) :- KsnFrom(rest);
    var (message, rest) :- CountedFrom(rest, 4, 16, 2);
    Ok((GwFields(size, algorithm, bdk, ksn, derivation, message), rest))
  }

  /** The fields, and the MAC to verify when the mode asks for that. */
  function GwFrom(payload: bytes): Result<((GwFields, Option<bytes>), bytes)> {
    var (mode, rest) :- ByteFrom(payload);
    if mode == 0x30 then
      var (f, rest) :- BodyFrom(rest);
      Ok(((f, None), rest))
    else if mode == 0x31 then
      var (f, rest) :- BodyFrom(rest);
      var (mac, rest) :- TakeFrom(rest, f.size * 2);
      Ok(((f, Some(mac)), rest))
    else Err(MalformedPayload)
  }

  method ReadSelectors(c: FieldReader) returns (r: Result<(nat, MacAlgorithm)>)
    requires c.Valid()
    modifies c`pos
    ensures c.Valid() && r == Value(SelectorsFrom(old(c.Rest())))
    ensures r.Ok? ==> c.Rest() == SelectorsFrom(old(c.Rest())).value.1
  {
    hide ByteFrom, AlgorithmOf, SizeOf, FieldReader.Rest, FieldReader.Valid;
    var format :- c.ExpectByte(0x31);
    var sizeByte :- c.Byte();
    var size := SizeOf(sizeByte);
    if size.Err? {
      return Err(size.error);
    }
    var algo :- c.Byte();
    var algorithm := AlgorithmOf(algo);
    if algorithm.Err? {
      return Err(algorithm.error);
    }
    var pad :- c.Byte();
    r := Ok((size.value, algorithm.value));
  }

  method ReadBody(c: FieldReader) returns (r: Result<GwFields>)
    requires c.Valid()
    modifies c`pos
    ensures c.Valid() && r == Value(BodyFrom(old(c.Rest())))
    ensures r.Ok? ==> c.Rest() == BodyFrom(old(c.Rest())).value.1
  {
    hide SelectorsFrom, KeyFrom, KsnField, CountedFrom, FieldReader.Rest, FieldReader.Valid;
    var selectors :- ReadSelectors(c);
    var bdk :- ReadKey(c, Bdk);
    var ksn :- c.ParseWith(KsnField);
    var message :- c.Counted(4, 16, 2);
    r := Ok(GwFields(selectors.0, selectors.1, bdk, ksn.0, ksn.1, message));
  }

  method ParseGw(payload: bytes) returns (r: Result<(GwFields, Option<bytes>)>)
    ensures r == Value(GwFrom(payload))
  {
    hide TakeFrom, ByteFrom, BodyFrom, FieldReader.Rest, FieldReader.Valid;
    var c := new FieldReader(payload);
    var mode :- c.Byte();
    if mode != 0x30 && mode != 0x31 {
      return Err(MalformedPayload);
    }
    var f :- ReadBody(c);
    if mode == 0x30 {
      return Ok((f, None));
    }
    var mac :- c.Take(f.size * 2);
    r := Ok((f, Some(mac)));
  }

  // ---------------------------------------------------------------- handler

  function Request(arn: bytes, f: GwFields): MacRequest {
    MacRequest(arn, Dukpt(f.algorithm, f.ksn, f.derivation), f.message)
  }

  /** APC verifies no half MAC, so one is compared with a freshly generated MAC. */
  function CheckMac(apc: Client, req: MacRequest, mac: bytes): (Verdict, Call) {
    if |mac| < 8 then
      (match apc.generateMac(req)
       case None => Failed
       case Some(full) => if SameIgnoringCase(mac, Leading(full, |mac|)) then Accepted else Mismatch,
       GenerateMac(req))
    else (apc.verifyMac(req, mac), VerifyMac(req, mac))
  }

  function VerifyGw(w: World, req: MacRequest, mac: bytes): Outcome {
    var (verdict, call) := CheckMac(w.apc, req, mac);
    VerifyOutcome(verdict, [call])
  }

  /** A half MAC is accepted if and only if it is the first four digits of the MAC, in either case. */
  lemma HalfMacChecked(apc: Client, req: MacRequest, mac: bytes)
    requires |mac| == 4
    ensures CheckMac(apc, req, mac).0 == Accepted
       <==> apc.generateMac(req).Some? && |apc.generateMac(req).value| >= 4
            && Upper(apc.generateMac(req).value[..4]) == Upper(mac)
  {
  }

  /** The check accepts only what agrees with the MAC up to letter case; a whole MAC that begins the
      one APC computes is accepted if and only if APC verifies MACs of that length. */
  lemma CheckMeaning(apc: Client, req: MacRequest, mac: bytes)
    requires MacContract(apc)
    ensures CheckMac(apc, req, mac).0 == Accepted ==>
              apc.generateMac(req).Some? && SameIgnoringCase(mac, Leading(apc.generateMac(req).value, |mac|))
    ensures |mac| >= 8 && apc.generateMac(req).Some? && mac <= apc.generateMac(req).value
            ==> (CheckMac(apc, req, mac).0 == Accepted <==> Verifiable(req.scheme, |mac|))
    ensures |mac| < 8 && apc.generateMac(req).Some? && mac <= apc.generateMac(req).value
            ==> CheckMac(apc, req, mac).0 == Accepted
  {
    assert SameIgnoringCase(mac, mac);
    hide SameIgnoringCase, Verifiable;
    if apc.generateMac(req).Some? && mac <= apc.generateMac(req).value {
      assert Leading(apc.generateMac(req).value, |mac|) == mac;
      assert apc.generateMac(req).value[..|mac|] == mac;
    }
  }

  function GenerateGw(w: World, req: MacRequest, size: nat): Outcome {
    match w.apc.generateMac(req)
    case None => Failure(ApcError, [GenerateMac(req)])
    case Some(full) => Success(Leading(full, size * 2), [GenerateMac(req)])
  }

  function HandleGw(w: World, payload: bytes): Outcome {
    match GwFrom(payload)
    case Err(e) => Failure(e, [])
    case Ok(((f, field), _)) =>
      match w.resolve(f.bdk)
      case Err(e) => Failure(e, [])
      case Ok(arn) =>
        match field
        case Some(mac) => VerifyGw(w, Request(arn, f), mac)
        case None => GenerateGw(w, Request(arn, f), f.size)
  }

  // ------------------------------------------------------ printed requests

  datatype GwWire = GwWire(
    verify: bool, half: bool, algo: byte, pad: byte, bdk: bytes, ksnKind: byte, ksnDigits: bytes, ksn: bytes,
    digits: bytes, message: bytes, mac: bytes)
  {
    function Size(): nat {
      if half then 2 else 4
    }

    predicate Printable() {
      && algo as char in {'1', '3', '6'} && IsKey(Bdk, bdk) && KsnPrintable(ksnDigits, ksn)
      && |digits| == 4 && ParseUsize(digits, 16).Some? && ParseUsize(digits, 16).value * 2 == |message|
      && |mac| == if verify then Size() * 2 else 0
    }

    function PrintBody(tail: bytes): bytes {
      [0x31] + ([if half then 0x31 else 0x30] + ([algo] + ([pad]
      + (bdk + ([ksnKind] + (ksnDigits + (ksn + (digits + (message + tail)))))))))
    }

    function Print(tail: bytes): bytes {
      [if verify then 0x31 else 0x30] + PrintBody(mac + tail)
    }

    function Meaning(): GwFields
      requires Printable()
    {
      GwFields(Size(), Selected(algo), Described(Bdk, bdk), ksn, DerivationOf(ksn), message)
    }

    function Mac(): Option<bytes> {
      if verify then Some(mac) else None
    }
  }

  lemma BodyPrinted(w: GwWire, tail: bytes)
    requires w.Printable()
    ensures BodyFrom(w.PrintBody(tail)) == Ok((w.Meaning(), tail))
  {
    hide TakeFrom, ByteFrom, KeyFrom, KsnFrom, AlgorithmOf, Selected, CountedFrom, IsKey, Described, DerivationOf,
         ParseUsize;
    SelectorTable(w.algo);
    BytePrinted();
    KeyPrinted();
    CountedPrinted();
    KsnPrinted(w.ksnKind, w.ksnDigits, w.ksn, w.digits + (w.message + tail));
  }

  /** Parsing a printed request gives its fields, whatever follows it. */
  lemma GwRoundTrip(w: GwWire, tail: bytes)
    requires w.Printable()
    ensures GwFrom(w.Print(tail)) == Ok(((w.Meaning(), w.Mac()), tail))
  {
    hide TakeFrom, ByteFrom, BodyFrom, GwWire.PrintBody, Selected, Described, DerivationOf;
    TakePrinted();
    BytePrinted();
    BodyPrinted(w, w.mac + tail);
    assert !w.verify ==> w.mac + tail == tail;
  }

  lemma BodyExact(rest: bytes) returns (w: GwWire, tail: bytes)
    requires BodyFrom(rest).Ok?
    ensures !w.verify && w.Printable() && rest == w.PrintBody(tail) && BodyFrom(rest).value == (w.Meaning(), tail)
  {
    hide TakeFrom, ByteFrom, KeyFrom, KsnFrom, AlgorithmOf, Selected, CountedFrom, IsKey, Described, KsnPrintable,
         DerivationOf, ParseUsize;
    var r2 := ExpectFrom(rest, 0x31).value;
    var (size, r3) := ByteFrom(r2).value;
    var (algo, r4) := ByteFrom(r3).value;
    SelectorTable(algo);
    var (pad, r5) := ByteFrom(r4).value;
    var (bdk, r6) := KeyFrom(Bdk, r5).value;
    KeyFromExact(Bdk, r5);
    var ((ksn, _), r7) := KsnFrom(r6).value;
    var kind, ksnDigits := KsnExact(r6);
    var (message, r8) := CountedFrom(r7, 4, 16, 2).value;
    var digits := CountedExact(r7, 4, 16, 2);
    tail := r8;
    w := GwWire(false, size == 0x31, algo, pad, bdk.raw, kind, ksnDigits, ksn, digits, message, []);
  }

  /** And every accepted payload is a printed request. */
  lemma GwExact(payload: bytes) returns (w: GwWire, tail: bytes)
    requires GwFrom(payload).Ok?
    ensures w.Printable() && payload == w.Print(tail) && GwFrom(payload).value == ((w.Meaning(), w.Mac()), tail)
  {
    hide BodyFrom, Selected, Described, DerivationOf, IsKey, KsnPrintable, ParseUsize;
    var (mode, r1) := ByteFrom(payload).value;
    var (f, r2) := BodyFrom(r1).value;
    var body;
    body, tail := BodyExact(r1);
    if mode == 0x31 {
      var (mac, r3) := TakeFrom(r2, f.size * 2).value;
      w, tail := body.(verify := true, mac := mac), r3;
      assert w.PrintBody(r2) == body.PrintBody(r2);
    } else {
      w := body;
      assert w.mac + tail == tail;
    }
  }

  // ------------------------------------------------- replies verify again

  lemma BodyAppend(rest: bytes, more: bytes)
    requires BodyFrom(rest).Ok?
    ensures BodyFrom(rest + more) == Ok((BodyFrom(rest).value.0, BodyFrom(rest).value.1 + more))
  {
    var w, tail := BodyExact(rest);
    BodyPrinted(w, tail + more);
    PrintAppend(w, tail, more);
  }

  lemma PrintAppend(w: GwWire, tail: bytes, more: bytes)
    ensures w.PrintBody(tail) + more == w.PrintBody(tail + more)
  {
  }

  /** A generate request with its mode byte turned to '1' and its reply appended is a verify
      request, answered 00 exactly when APC's MAC was long enough to fill the reply and the reply
      is not the first eight digits of an AES CMAC, which APC verifies only whole. */
  lemma GwGenerateThenVerify(w: World, payload: bytes, full: bytes)
    requires MacContract(w.apc)
    requires GwFrom(payload).Ok? && GwFrom(payload).value.1 == [] && GwFrom(payload).value.0.1.None?
    requires var f := GwFrom(payload).value.0.0;
             w.resolve(f.bdk).Ok? && w.apc.generateMac(Request(w.resolve(f.bdk).value, f)) == Some(full)
    ensures var made := HandleGw(w, payload);
            var f := GwFrom(payload).value.0.0;
            && Succeeded(made)
            && (Succeeded(HandleGw(w, [0x31] + (payload[1..] + made.reply.payload)))
                <==> |full| >= f.size * 2 && (f.size == 2 || !(f.algorithm.Cmac? && f.derivation.Aes128?)))
  {
    hide BodyFrom, CheckMac;
    var (_, rest) := ByteFrom(payload).value;
    var f := BodyFrom(rest).value.0;
    var shown := Leading(full, f.size * 2);
    BodyAppend(rest, shown);
    BytePrinted();
    NoErrorIsSuccess(MalformedPayload);
    SizeKnown(rest);
    assert [] + shown == shown;
    if |full| >= f.size * 2 {
      assert shown[..f.size * 2] == shown;
      CheckMeaning(w.apc, Request(w.resolve(f.bdk).value, f), shown);
      CheckOutcome(w, Request(w.resolve(f.bdk).value, f), shown);
    }
  }

  lemma CheckOutcome(w: World, req: MacRequest, mac: bytes)
    ensures Succeeded(VerifyGw(w, req, mac)) <==> CheckMac(w.apc, req, mac).0 == Accepted
  {
    NoErrorIsSuccess(ApcError);
    NoErrorIsSuccess(VerificationFailed);
  }

  lemma SizeKnown(rest: bytes)
    requires BodyFrom(rest).Ok?
    ensures BodyFrom(rest).value.0.size == 4 || BodyFrom(rest).value.0.size == 2
  {
    hide ByteFrom, KeyFrom, KsnFrom, AlgorithmOf, CountedFrom;
  }

  /** A half MAC verifies if and only if it is the first four digits of the MAC, in either case. */
  lemma HalfMacVerifies(w: World, payload: bytes)
    requires GwFrom(payload).Ok? && GwFrom(payload).value.0.1.Some? && GwFrom(payload).value.0.0.size == 2
    ensures var (f, mac) := GwFrom(payload).value.0;
            Succeeded(HandleGw(w, payload))
            <==> w.resolve(f.bdk).Ok?
                 && var full := w.apc.generateMac(Request(w.resolve(f.bdk).value, f));
                    full.Some? && |full.value| >= 4 && Upper(full.value[..4]) == Upper(mac.value)
  {
    hide BodyFrom;
    forall e ensures ErrorCode(e) != SUCCESS {
      NoErrorIsSuccess(e);
    }
  }

  /** Whatever a verify request is answered 00 to agrees with the leading digits of the MAC. */
  lemma OnlyTheDukptMacVerifies(w: World, payload: bytes)
    requires MacContract(w.apc) && GwFrom(payload).Ok? && GwFrom(payload).value.0.1.Some?
    requires Succeeded(HandleGw(w, payload))
    ensures var (f, mac) := GwFrom(payload).value.0;
            && w.resolve(f.bdk).Ok?
            && var full := w.apc.generateMac(Request(w.resolve(f.bdk).value, f));
               full.Some? && SameIgnoringCase(mac.value, Leading(full.value, |mac.value|))
  {
    hide BodyFrom, SameIgnoringCase;
    forall e ensures ErrorCode(e) != SUCCESS {
      NoErrorIsSuccess(e);
    }
  }

  // ------------------------------------------- from the wire to APC and back

  /** What the check of eight or of four digits comes to: APC's own verdict on the one, the first four
      digits of a fresh MAC against the other. */
  lemma CheckMacMeans(apc: Client, req: MacRequest, mac: bytes)
    ensures |mac| == 8 ==> CheckMac(apc, req, mac) == (apc.verifyMac(req, mac), VerifyMac(req, mac))
    ensures |mac| == 4 ==> CheckMac(apc, req, mac) == (HalfVerdict(apc.generateMac(req), mac), GenerateMac(req))
  {
  }

  function HalfVerdict(made: Option<bytes>, mac: bytes): Verdict {
    match made
    case None => Failed
    case Some(full) => if |full| >= 4 && Upper(full[..4]) == Upper(mac) then Accepted else Mismatch
  }

  lemma GeneratedGw(w: World, req: MacRequest, size: nat)
    ensures GenerateGw(w, req, size) == GenerateAnswer(w.apc, req, size * 2, [])
  {
    ErrorCodes();
    hide ErrorCode, Code;
  }

  /** GW asks APC for the DUKPT MAC of the very message on the wire, by the algorithm its selector names
      and the derivation its KSN's length names, and answers with its first eight digits, or four of a
      half MAC; or it checks those that follow the message. */
  lemma GwRun(w: World, wire: GwWire, tail: bytes, arn: bytes)
    requires wire.Printable() && w.resolve(Described(Bdk, wire.bdk)) == Ok(arn)
    ensures var derivation := if |wire.ksn| == 20 then Tdes2Key else Aes128;
            var req := MacRequest(arn, Dukpt(Selected(wire.algo), wire.ksn, derivation), wire.message);
            HandleGw(w, wire.Print(tail)) ==
              if !wire.verify then GenerateAnswer(w.apc, req, if wire.half then 4 else 8, [])
              else if wire.half then VerdictAnswer(HalfVerdict(w.apc.generateMac(req), wire.mac), [GenerateMac(req)])
              else VerdictAnswer(w.apc.verifyMac(req, wire.mac), [VerifyMac(req, wire.mac)])
  {
    hide GwFrom, GwWire.Print, GenerateAnswer, VerdictAnswer, HalfVerdict, Described, IsKey, CheckMac, GenerateGw,
         VerifyOutcome, KsnPrintable, Selected, ParseUsize;
    GwRoundTrip(wire, tail);
    var req := Request(arn, wire.Meaning());
    GeneratedGw(w, req, wire.Size());
    CheckMacMeans(w.apc, req, wire.mac);
    var (verdict, call) := CheckMac(w.apc, req, wire.mac);
    VerdictAnswered(verdict, [call]);
  }

  lemma GwUnresolved(w: World, wire: GwWire, tail: bytes)
    requires wire.Printable() && w.resolve(Described(Bdk, wire.bdk)).Err?
    ensures HandleGw(w, wire.Print(tail)) == Failure(w.resolve(Described(Bdk, wire.bdk)).error, [])
  {
    hide GwFrom, GwWire.Print, Described, IsKey, KsnPrintable, Failure, ParseUsize;
    GwRoundTrip(wire, tail);
  }

  /** A payload that is no request is answered 15 without a call. */
  lemma GwMalformed(w: World, payload: bytes)
    requires GwFrom(payload).Err?
    ensures HandleGw(w, payload) == Coded('1', '5', [], [])
  {
    ErrorCodes();
    hide ErrorCode, Code, TakeFrom, ByteFrom, ExpectFrom, KeyFrom, KsnFrom, CountedFrom;
  }
}
