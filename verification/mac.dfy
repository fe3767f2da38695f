/** MAC commands C2/C4 and M6/M8 (src/handlers/thales/mac.rs). */
module Mac {
  import opened Bytes
  import opened Reader
  import opened Keys
  import opened Apc

  datatype Family = C2 | M6

  datatype MacFields = MacFields(algorithm: MacAlgorithm, key: KeyDescriptor, message: bytes, size: nat)

  const MAC_HEX: nat := 8

  function AlgorithmOfMode(mode: byte): Result<MacAlgorithm> {
    if mode == 0x30 then Ok(Alg1)
    else if mode == 0x31 then Ok(Alg3)
    else if mode == 0x32 || mode == 0x33 then Ok(As2805)
    else Err(UnsupportedMacMode)
  }

  function AlgorithmOf(algo: byte): Result<MacAlgorithm> {
    if algo == 0x31 then Ok(Alg1)
    else if algo == 0x33 then Ok(Alg3)
    else if algo == 0x36 then Ok(Cmac)
    else Err(UnsupportedMacMode)
  }

  /** C2/C4 trim their length field, so a space-padded length is accepted there and only there. */
  function Trim(s: bytes): bytes {
    TrimRight(TrimLeft(s))
  }

  /** What precedes the key of C2: block number, key type, MAC mode, message type. */
  function C2SelectorsFrom(payload: bytes): Result<(MacAlgorithm, bytes)> {
    var (block, rest) :- ByteFrom(payload);
    if block != 0x30 then Err(UnsupportedMacMode)
    else
      var (_, rest) :- ByteFrom(rest);
      var (mode, rest) :- ByteFrom(rest);
      var algorithm :- AlgorithmOfMode(mode);
      var (msgType, rest) :- ByteFrom(rest);
      if msgType != 0x31 then Err(MalformedPayload) else Ok((algorithm, rest))
  }

  /** The message of C2, its length field trimmed. */
  function C2MessageFrom(rest: bytes): Result<(bytes, bytes)> {
    var (digits, rest) :- TakeFrom(rest, 4);
    match ParseUsize(Trim(digits), 16)
    case None => Err(MalformedPayload)
    case Some(n) => TakeFrom(rest, n * 2)
  }

  function C2From(payload: bytes): Result<(MacFields, bytes)> {
    var (algorithm, rest) :- C2SelectorsFrom(payload);
    var (key, rest) :- KeyFrom(Legacy, rest);
    var (message, rest) :- C2MessageFrom(rest);
    Ok((MacFields(algorithm, key, message, 4), rest))
  }

  /** What precedes the key of M6: mode, input format, MAC size, algorithm, padding, key type. */
  function M6SelectorsFrom(payload: bytes): Result<((nat, MacAlgorithm), bytes)> {
    var (mode, rest) :- ByteFrom(payload);
    if mode != 0x30 then Err(UnsupportedMacMode)
    else
      var rest :- ExpectFrom(rest, 0x31);
      var (size, rest) :- ByteFrom(rest);
      if size != 0x30 && size != 0x31 then Err(MalformedPayload)
      else
        var (algo, rest) :- ByteFrom(rest);
        var algorithm :- AlgorithmOf(algo);
        var (_, rest) :- ByteFrom(rest);
        var (_, rest) :- TakeFrom(rest, 3);
        Ok(((if size == 0x30 then 4 else 8, algorithm), rest))
  }

  function M6From(payload: bytes): Result<(MacFields, bytes)> {
    var ((size, algorithm), rest) :- M6SelectorsFrom(payload);
    var (key, rest) :- KeyFrom(Legacy, rest);
    var (message, rest) :- CountedFrom(rest, 4, 16, 2);
    Ok((MacFields(algorithm, key, message, size), rest))
  }

  function MacFrom(family: Family, payload: bytes): Result<(MacFields, bytes)> {
    if family.C2? then C2From(payload) else M6From(payload)
  }

  /** A verify request is a generate request with the MAC appended. */
  function VerifyFrom(family: Family, payload: bytes): Result<((MacFields, bytes), bytes)> {
    var (fields, rest) :- MacFrom(family, payload);
    var (mac, rest) :- TakeFrom(rest, if family.C2? then MAC_HEX else fields.size * 2);
    Ok(((fields, mac), rest))
  }

  // ----------------------------------------------------- the cursor versions

  method ReadC2Selectors(c: FieldReader) returns (r: Result<MacAlgorithm>)
    requires c.Valid()
    modifies c`pos
    ensures c.Valid() && r == Value(C2SelectorsFrom(old(c.Rest())))
    ensures r.Ok? ==> c.Rest() == C2SelectorsFrom(old(c.Rest())).value.1
  {
    hide ByteFrom, AlgorithmOfMode, FieldReader.Rest, FieldReader.Valid;
    var block :- c.Byte();
    if block != 0x30 {
      return Err(UnsupportedMacMode);
    }
    var keyType :- c.Byte();
    var mode :- c.Byte();
    var algorithm := AlgorithmOfMode(mode);
    if algorithm.Err? {
      return Err(algorithm.error);
    }
    var msgType :- c.Byte();
    if msgType != 0x31 {
      return Err(MalformedPayload);
    }
    r := Ok(algorithm.value);
  }

  method ParseC2(payload: bytes, isVerify: bool) returns (r: Result<(MacFields, Option<bytes>)>)
    ensures r == Parsed(C2, payload, isVerify)
  {
    hide TakeFrom, C2SelectorsFrom, KeyFrom, ParseUsize, Trim, M6From, FieldReader.Rest, FieldReader.Valid;
    var c := new FieldReader(payload);
    var algorithm :- ReadC2Selectors(c);
    var key :- ReadKey(c, Legacy);
    var digits :- c.Take(4);
    var n := ParseUsize(Trim(digits), 16);
    if n.None? {
      return Err(MalformedPayload);
    }
    var message :- c.Take(n.value * 2);
    var fields := MacFields(algorithm, key, message, 4);
    if isVerify {
      var mac :- c.Take(MAC_HEX);
      return Ok((fields, Some(mac)));
    }
    return Ok((fields, None));
  }

  method ReadM6Selectors(c: FieldReader) returns (r: Result<(nat, MacAlgorithm)>)
    requires c.Valid()
    modifies c`pos
    ensures c.Valid() && r == Value(M6SelectorsFrom(old(c.Rest())))
    ensures r.Ok? ==> c.Rest() == M6SelectorsFrom(old(c.Rest())).value.1
  {
    hide TakeFrom, ByteFrom, AlgorithmOf, FieldReader.Rest, FieldReader.Valid;
    var mode :- c.Byte();
    if mode != 0x30 {
      return Err(UnsupportedMacMode);
    }
    var format :- c.ExpectByte(0x31);
    var size :- c.Byte();
    if size != 0x30 && size != 0x31 {
      return Err(MalformedPayload);
    }
    var algo :- c.Byte();
    var algorithm := AlgorithmOf(algo);
    if algorithm.Err? {
      return Err(algorithm.error);
    }
    var pad :- c.Byte();
    var keyType :- c.Take(3);
    r := Ok((if size == 0x30 then 4 else 8, algorithm.value));
  }

  method ParseM6(payload: bytes, isVerify: bool) returns (r: Result<(MacFields, Option<bytes>)>)
    ensures r == Parsed(M6, payload, isVerify)
  {
    hide TakeFrom, M6SelectorsFrom, KeyFrom, CountedFrom, C2From, FieldReader.Rest, FieldReader.Valid;
    var c := new FieldReader(payload);
    var selectors :- ReadM6Selectors(c);
    var key :- ReadKey(c, Legacy);
    var message :- c.Counted(4, 16, 2);
    var fields := MacFields(selectors.1, key, message, selectors.0);
    if isVerify {
      var mac :- c.Take(fields.size * 2);
      return Ok((fields, Some(mac)));
    }
    return Ok((fields, None));
  }

  function Parsed(family: Family, payload: bytes, isVerify: bool): Result<(MacFields, Option<bytes>)> {
    if isVerify then
      var ((fields, mac), _) :- VerifyFrom(family, payload);
      Ok((fields, Some(mac)))
    else
      var (fields, _) :- MacFrom(family, payload);
      Ok((fields, None))
  }

  // ---------------------------------------------------------------- handler

  function Request(arn: bytes, f: MacFields): MacRequest {
    MacRequest(arn, Static(f.algorithm), f.message)
  }

  function Generate(w: World, f: MacFields): Outcome {
    match w.resolve(f.key)
    case Err(e) => Failure(e, [])
    case Ok(arn) =>
      var req := Request(arn, f);
      match w.apc.generateMac(req)
      case None => Failure(ApcError, [GenerateMac(req)])
      case Some(full) => Success(Leading(full, f.size * 2), [GenerateMac(req)])
  }

  /** CMACs are verified by computing the MAC again, since APC wants all 32 digits of one. The
      comparison slices the fresh MAC without a bound, so a short one ends the task. */
  function Verify(w: World, f: MacFields, mac: bytes): Outcome {
    match w.resolve(f.key)
    case Err(e) => Failure(e, [])
    case Ok(arn) =>
      var req := Request(arn, f);
      if f.algorithm.Cmac? then
        match w.apc.generateMac(req)
        case None => Failure(ApcError, [GenerateMac(req)])
        case Some(full) =>
          if |full| < f.size * 2 then Panicked([GenerateMac(req)])
          else if SameIgnoringCase(mac, full[..f.size * 2]) then Success([], [GenerateMac(req)])
          else Failure(VerificationFailed, [GenerateMac(req)])
      else VerifyOutcome(w.apc.verifyMac(req, mac), [VerifyMac(req, mac)])
  }

  /** C2 and M6 generate, C4 and M8 verify. */
  function Handle(w: World, family: Family, isVerify: bool, payload: bytes): Outcome {
    match Parsed(family, payload, isVerify)
    case Err(e) => Failure(e, [])
    case Ok((f, None)) => Generate(w, f)
    case Ok((f, Some(mac))) => Verify(w, f, mac)
  }

  // ------------------------------------------------------- a reply is a tail

  /** A generate request that is all used up stays the same request when bytes are appended,
      and leaves exactly those bytes. */
  lemma C2SelectorsAppend(payload: bytes, more: bytes)
    requires C2SelectorsFrom(payload).Ok?
    ensures C2SelectorsFrom(payload + more)
         == Ok((C2SelectorsFrom(payload).value.0, C2SelectorsFrom(payload).value.1 + more))
  {
    hide ByteFrom, AlgorithmOfMode;
    var (_, r1) := ByteFrom(payload).value;
    var (_, r2) := ByteFrom(r1).value;
    var (_, r3) := ByteFrom(r2).value;
    ByteStable(payload, more);
    ByteStable(r1, more);
    ByteStable(r2, more);
    ByteStable(r3, more);
  }

  lemma C2MessageAppend(rest: bytes, more: bytes)
    requires C2MessageFrom(rest).Ok?
    ensures C2MessageFrom(rest + more) == Ok((C2MessageFrom(rest).value.0, C2MessageFrom(rest).value.1 + more))
  {
    hide TakeFrom, ParseUsize, Trim;
    var (digits, r1) := TakeFrom(rest, 4).value;
    TakeStable(rest, 4, more);
    TakeStable(r1, ParseUsize(Trim(digits), 16).value * 2, more);
  }

  lemma C2Append(payload: bytes, more: bytes)
    requires C2From(payload).Ok? && C2From(payload).value.1 == []
    ensures C2From(payload + more) == Ok((C2From(payload).value.0, more))
  {
    hide C2SelectorsFrom, C2MessageFrom, KeyFrom;
    var (_, r1) := C2SelectorsFrom(payload).value;
    var (_, r2) := KeyFrom(Legacy, r1).value;
    C2SelectorsAppend(payload, more);
    KeyStable(Legacy, r1, more);
    C2MessageAppend(r2, more);
    assert [] + more == more;
  }

  lemma M6SelectorsAppend(payload: bytes, more: bytes)
    requires M6SelectorsFrom(payload).Ok?
    ensures M6SelectorsFrom(payload + more)
         == Ok((M6SelectorsFrom(payload).value.0, M6SelectorsFrom(payload).value.1 + more))
  {
    hide TakeFrom, ByteFrom, AlgorithmOf;
    var (_, r1) := ByteFrom(payload).value;
    var r2 := ExpectFrom(r1, 0x31).value;
    var (_, r3) := ByteFrom(r2).value;
    var (_, r4) := ByteFrom(r3).value;
    var (_, r5) := ByteFrom(r4).value;
    ByteStable(payload, more);
    assert (r1 + more)[1..] == r2 + more;
    ByteStable(r2, more);
    ByteStable(r3, more);
    ByteStable(r4, more);
    TakeStable(r5, 3, more);
  }

  lemma M6Append(payload: bytes, more: bytes)
    requires M6From(payload).Ok? && M6From(payload).value.1 == []
    ensures M6From(payload + more) == Ok((M6From(payload).value.0, more))
  {
    hide M6SelectorsFrom, KeyFrom, CountedFrom;
    var (_, r1) := M6SelectorsFrom(payload).value;
    var (_, r2) := KeyFrom(Legacy, r1).value;
    M6SelectorsAppend(payload, more);
    KeyStable(Legacy, r1, more);
    CountedStable(r2, 4, 16, 2, more);
    assert [] + more == more;
  }

  lemma RequestAppend(family: Family, payload: bytes, more: bytes)
    requires MacFrom(family, payload).Ok? && MacFrom(family, payload).value.1 == []
    ensures MacFrom(family, payload + more) == Ok((MacFrom(family, payload).value.0, more))
  {
    if family.C2? {
      C2Append(payload, more);
    } else {
      M6Append(payload, more);
    }
  }

  /** Every message uses the size its reply is cut to: four bytes, or eight for M6 size '1'. */
  lemma Sizes(family: Family, payload: bytes)
    requires MacFrom(family, payload).Ok?
    ensures var f := MacFrom(family, payload).value.0;
            (f.size == 4 || f.size == 8) && (family.C2? ==> f.size == 4)
  {
    hide TakeFrom, ByteFrom, KeyFrom, AlgorithmOf, AlgorithmOfMode, CountedFrom, C2SelectorsFrom, C2MessageFrom;
  }

  /** A generate reply appended to its own request is a verify request, and is answered 00 exactly
      when APC's MAC was long enough to fill the reply. */
  lemma GenerateThenVerify(w: World, family: Family, payload: bytes, full: bytes)
    requires MacContract(w.apc)
    requires MacFrom(family, payload).Ok? && MacFrom(family, payload).value.1 == []
    requires var f := MacFrom(family, payload).value.0;
             w.resolve(f.key).Ok? && w.apc.generateMac(Request(w.resolve(f.key).value, f)) == Some(full)
    ensures var made := Handle(w, family, false, payload);
            && Succeeded(made)
            && (Succeeded(Handle(w, family, true, payload + made.reply.payload))
                <==> |full| >= MacFrom(family, payload).value.0.size * 2)
  {
    hide C2From, M6From, ParseUsize;
    var f := MacFrom(family, payload).value.0;
    Sizes(family, payload);
    var shown := Leading(full, f.size * 2);
    RequestAppend(family, payload, shown);
    NoErrorIsSuccess(MalformedPayload);
    if |full| >= f.size * 2 {
      assert shown[..f.size * 2] == shown;
    }
  }

  /** And nothing but the MAC is accepted: whatever a verify command answers 00 to agrees with
      the leading digits of the MAC up to letter case. */
  lemma OnlyTheMacVerifies(w: World, family: Family, payload: bytes)
    requires MacContract(w.apc) && Succeeded(Handle(w, family, true, payload))
    ensures VerifyFrom(family, payload).Ok?
    ensures var ((f, mac), _) := VerifyFrom(family, payload).value;
            && w.resolve(f.key).Ok?
            && var full := w.apc.generateMac(Request(w.resolve(f.key).value, f));
               full.Some? && SameIgnoringCase(mac, Leading(full.value, |mac|))
  {
    hide C2From, M6From, ParseUsize, SameIgnoringCase;
    if MacFrom(family, payload).Ok? {
      Sizes(family, payload);
    }
    forall e ensures ErrorCode(e) != SUCCESS {
      NoErrorIsSuccess(e);
    }
  }

  /** A CMAC shorter than the requested size ends the verifying task instead of failing the
      command; no other verify request does that. */
  lemma PanicsExactlyWhen(w: World, family: Family, payload: bytes)
    ensures Handle(w, family, true, payload).Panicked?
       <==> VerifyFrom(family, payload).Ok?
            && var ((f, _), _) := VerifyFrom(family, payload).value;
               f.algorithm.Cmac? && w.resolve(f.key).Ok?
               && var full := w.apc.generateMac(Request(w.resolve(f.key).value, f));
                  full.Some? && |full.value| < f.size * 2
  {
    hide C2From, M6From, ParseUsize;
  }

  // --------------------------------------------------- printed requests

  /** The algorithm an M6, GW or MY selector stands for. */
  function Selected(algo: byte): MacAlgorithm {
    match algo as char
    case '1' => Alg1
    case '3' => Alg3
    case _ => Cmac
  }

  lemma SelectorTable(algo: byte)
    ensures AlgorithmOf(algo) == if algo as char in {'1', '3', '6'} then Ok(Selected(algo)) else Err(UnsupportedMacMode)
  {
  }

  /** A generate request as a host writes it; `digits` spells the message's length in bytes. */
  datatype MacWire =
    | C2Wire(keyType: byte, mode: byte, key: bytes, digits: bytes, message: bytes)
    | M6Wire(size: byte, algo: byte, pad: byte, keyTypes: bytes, key: bytes, digits: bytes, message: bytes)
  {
    function Family(): Family {
      if C2Wire? then C2 else M6
    }

    predicate Printable() {
      && IsKey(Legacy, key) && |digits| == 4 && Length().Some? && Length().value * 2 == |message|
      && (C2Wire? ==> mode as char in {'0', '1', '2', '3'})
      && (M6Wire? ==> size as char in {'0', '1'} && algo as char in {'1', '3', '6'} && |keyTypes| == 3)
    }

    function Length(): Option<nat> {
      ParseUsize(if C2Wire? then Trim(digits) else digits, 16)
    }

    function Print(tail: bytes): bytes {
      var after := key + (digits + (message + tail));
      match this
      case C2Wire(keyType, mode, _, _, _) =>
        ['0' as int] + ([keyType] + ([mode] + (['1' as int] + after)))
      case M6Wire(size, algo, pad, keyTypes, _, _, _) =>
        ['0' as int] + (['1' as int] + ([size] + ([algo] + ([pad] + (keyTypes + after)))))
    }

    function Algorithm(): MacAlgorithm {
      match this
      case C2Wire(_, mode, _, _, _) =>
        if mode as char == '0' then Alg1 else if mode as char == '1' then Alg3 else As2805
      case M6Wire(_, algo, _, _, _, _, _) => Selected(algo)
    }

    /** Hex digits in the reply: eight, or sixteen for M6 size '1'. */
    function Width(): nat {
      if M6Wire? && size as char == '1' then 16 else 8
    }
  }

  lemma M6SelectorsPrinted(size: byte, algo: byte, pad: byte, keyTypes: bytes, rest: bytes)
    requires size as char in {'0', '1'} && algo as char in {'1', '3', '6'} && |keyTypes| == 3
    ensures M6SelectorsFrom(['0' as int] + (['1' as int] + ([size] + ([algo] + ([pad] + (keyTypes + rest))))))
         == Ok(((if size as char == '1' then 8 else 4, Selected(algo)), rest))
  {
    hide TakeFrom, ByteFrom, AlgorithmOf, Selected;
    SelectorTable(algo);
    TakePrinted();
    BytePrinted();
  }

  lemma C2SelectorsPrinted(keyType: byte, mode: byte, rest: bytes)
    requires mode as char in {'0', '1', '2', '3'}
    ensures C2SelectorsFrom(['0' as int] + ([keyType] + ([mode] + (['1' as int] + rest))))
         == Ok((if mode as char == '0' then Alg1 else if mode as char == '1' then Alg3 else As2805, rest))
  {
    hide ByteFrom;
    BytePrinted();
  }

  lemma C2MessagePrinted(digits: bytes, message: bytes, tail: bytes)
    requires |digits| == 4 && ParseUsize(Trim(digits), 16).Some? && ParseUsize(Trim(digits), 16).value * 2 == |message|
    ensures C2MessageFrom(digits + (message + tail)) == Ok((message, tail))
  {
    hide TakeFrom, ParseUsize, Trim;
    TakePrinted();
  }

  lemma C2RoundTrip(w: MacWire, tail: bytes)
    requires w.C2Wire? && w.Printable()
    ensures C2From(w.Print(tail)) == Ok((MacFields(w.Algorithm(), Described(Legacy, w.key), w.message, 4), tail))
  {
    hide C2SelectorsFrom, C2MessageFrom, KeyFrom, IsKey, Described, ParseUsize, Trim;
    KeyPrinted();
    C2SelectorsPrinted(w.keyType, w.mode, w.key + (w.digits + (w.message + tail)));
    C2MessagePrinted(w.digits, w.message, tail);
  }

  lemma M6RoundTrip(w: MacWire, tail: bytes)
    requires w.M6Wire? && w.Printable()
    ensures M6From(w.Print(tail))
         == Ok((MacFields(w.Algorithm(), Described(Legacy, w.key), w.message, w.Width() / 2), tail))
  {
    hide KeyFrom, CountedFrom, IsKey, Described, ParseUsize, Trim, M6SelectorsFrom, Selected;
    KeyPrinted();
    CountedPrinted();
    M6SelectorsPrinted(w.size, w.algo, w.pad, w.keyTypes, w.key + (w.digits + (w.message + tail)));
  }

  /** Parsing a printed request gives its fields, whatever follows it. */
  lemma MacRoundTrip(w: MacWire, tail: bytes)
    requires w.Printable()
    ensures MacFrom(w.Family(), w.Print(tail))
         == Ok((MacFields(w.Algorithm(), Described(Legacy, w.key), w.message, w.Width() / 2), tail))
  {
    hide C2From, M6From, IsKey, Described, MacWire.Print, MacWire.Algorithm;
    if w.C2Wire? {
      C2RoundTrip(w, tail);
    } else {
      M6RoundTrip(w, tail);
    }
  }

  lemma M6SelectorsExact(payload: bytes) returns (size: byte, algo: byte, pad: byte, keyTypes: bytes)
    requires M6SelectorsFrom(payload).Ok?
    ensures size as char in {'0', '1'} && algo as char in {'1', '3', '6'} && |keyTypes| == 3
    ensures payload == ['0' as int] + (['1' as int] + ([size] + ([algo] + ([pad]
                       + (keyTypes + M6SelectorsFrom(payload).value.1)))))
  {
    hide TakeFrom, ByteFrom;
    var (_, r1) := ByteFrom(payload).value;
    var r2 := ExpectFrom(r1, 0x31).value;
    var (s, r3) := ByteFrom(r2).value;
    var (a, r4) := ByteFrom(r3).value;
    var (p, r5) := ByteFrom(r4).value;
    var (k, r6) := TakeFrom(r5, 3).value;
    size, algo, pad, keyTypes := s, a, p, k;
  }

  lemma C2SelectorsExact(payload: bytes) returns (keyType: byte, mode: byte)
    requires C2SelectorsFrom(payload).Ok?
    ensures mode as char in {'0', '1', '2', '3'}
    ensures payload == ['0' as int] + ([keyType] + ([mode] + (['1' as int] + C2SelectorsFrom(payload).value.1)))
  {
    hide ByteFrom;
    var (_, r1) := ByteFrom(payload).value;
    var (k, r2) := ByteFrom(r1).value;
    var (m, r3) := ByteFrom(r2).value;
    keyType, mode := k, m;
  }

  lemma C2MessageExact(rest: bytes) returns (digits: bytes)
    requires C2MessageFrom(rest).Ok?
    ensures |digits| == 4 && ParseUsize(Trim(digits), 16).Some?
    ensures var (message, tail) := C2MessageFrom(rest).value;
            ParseUsize(Trim(digits), 16).value * 2 == |message| && rest == digits + (message + tail)
  {
    hide TakeFrom, ParseUsize, Trim;
    digits := TakeFrom(rest, 4).value.0;
  }

  lemma C2Exact(payload: bytes) returns (w: MacWire, tail: bytes)
    requires C2From(payload).Ok?
    ensures w.C2Wire? && w.Printable() && payload == w.Print(tail)
  {
    hide C2SelectorsFrom, C2MessageFrom, KeyFrom, IsKey, ParseUsize, Trim;
    var (_, r1) := C2SelectorsFrom(payload).value;
    var keyType, mode := C2SelectorsExact(payload);
    var (key, r2) := KeyFrom(Legacy, r1).value;
    KeyFromExact(Legacy, r1);
    var (message, r3) := C2MessageFrom(r2).value;
    var digits := C2MessageExact(r2);
    w, tail := C2Wire(keyType, mode, key.raw, digits, message), r3;
  }

  lemma M6Exact(payload: bytes) returns (w: MacWire, tail: bytes)
    requires M6From(payload).Ok?
    ensures w.M6Wire? && w.Printable() && payload == w.Print(tail)
  {
    hide KeyFrom, CountedFrom, IsKey, ParseUsize, Trim, M6SelectorsFrom;
    var (_, r1) := M6SelectorsFrom(payload).value;
    var size, algo, pad, keyTypes := M6SelectorsExact(payload);
    var (key, r2) := KeyFrom(Legacy, r1).value;
    KeyFromExact(Legacy, r1);
    var (message, r3) := CountedFrom(r2, 4, 16, 2).value;
    var digits := CountedExact(r2, 4, 16, 2);
    w, tail := M6Wire(size, algo, pad, keyTypes, key.raw, digits, message), r3;
  }

  /** Conversely every accepted request is a printed one. */
  lemma MacExact(family: Family, payload: bytes) returns (w: MacWire, tail: bytes)
    requires MacFrom(family, payload).Ok?
    ensures w.Family() == family && w.Printable() && payload == w.Print(tail)
  {
    hide C2From, M6From, MacWire.Print, MacWire.Printable;
    if family.C2? {
      w, tail := C2Exact(payload);
    } else {
      w, tail := M6Exact(payload);
    }
  }

  // ------------------------------------------- from the wire to APC and back

  lemma Generated(w: World, f: MacFields, arn: bytes)
    requires w.resolve(f.key) == Ok(arn)
    ensures Generate(w, f) == GenerateAnswer(w.apc, MacRequest(arn, Static(f.algorithm), f.message), f.size * 2, [])
  {
    ErrorCodes();
    hide ErrorCode, Code;
  }

  /** A CMAC is made again and its digits compared, any other MAC given to APC to verify. */
  function CheckAnswer(apc: Client, req: MacRequest, mac: bytes): Outcome {
    if req.scheme.algorithm != Cmac then VerdictAnswer(apc.verifyMac(req, mac), [VerifyMac(req, mac)])
    else
      match apc.generateMac(req)
      case None => Coded('4', '1', [], [GenerateMac(req)])
      case Some(full) =>
        if |full| < |mac| then Panicked([GenerateMac(req)])
        else if Upper(mac) == Upper(full[..|mac|]) then Coded('0', '0', [], [GenerateMac(req)])
        else Coded('0', '1', [], [GenerateMac(req)])
  }

  lemma Checked(w: World, f: MacFields, mac: bytes, arn: bytes)
    requires w.resolve(f.key) == Ok(arn) && |mac| == f.size * 2
    ensures Verify(w, f, mac) == CheckAnswer(w.apc, MacRequest(arn, Static(f.algorithm), f.message), mac)
  {
    ErrorCodes();
    VerdictAnswered(w.apc.verifyMac(Request(arn, f), mac), [VerifyMac(Request(arn, f), mac)]);
    hide ErrorCode, Code, VerdictAnswer, VerifyOutcome, Upper;
  }

  lemma Handled(w: World, wire: MacWire, mac: bytes, tail: bytes)
    requires wire.Printable() && |mac| == wire.Width()
    ensures var f := MacFields(wire.Algorithm(), Described(Legacy, wire.key), wire.message, wire.Width() / 2);
            && Handle(w, wire.Family(), false, wire.Print(tail)) == Generate(w, f)
            && Handle(w, wire.Family(), true, wire.Print(mac + tail)) == Verify(w, f, mac)
  {
    hide MacFrom, TakeFrom, MacWire.Print, MacWire.Algorithm, MacWire.Printable, Described, IsKey, Generate, Verify;
    MacRoundTrip(wire, tail);
    MacRoundTrip(wire, mac + tail);
    TakePrinted();
  }

  /** C2 and M6 ask APC for the MAC of the very message on the wire, by the algorithm its selector
      names, and answer with its leading digits; C4 and M8 check the digits after that message. */
  lemma MacRun(w: World, wire: MacWire, mac: bytes, tail: bytes, arn: bytes)
    requires wire.Printable() && w.resolve(Described(Legacy, wire.key)) == Ok(arn) && |mac| == wire.Width()
    ensures var req := MacRequest(arn, Static(wire.Algorithm()), wire.message);
            && Handle(w, wire.Family(), false, wire.Print(tail)) == GenerateAnswer(w.apc, req, wire.Width(), [])
            && Handle(w, wire.Family(), true, wire.Print(mac + tail)) == CheckAnswer(w.apc, req, mac)
  {
    hide Handle, MacWire.Print, MacWire.Algorithm, Described, IsKey, Generate, Verify,
         GenerateAnswer, CheckAnswer;
    var f := MacFields(wire.Algorithm(), Described(Legacy, wire.key), wire.message, wire.Width() / 2);
    Handled(w, wire, mac, tail);
    Generated(w, f, arn);
    Checked(w, f, mac, arn);
  }

  /** Without its key a request makes no call and is answered with the reason. */
  lemma UnresolvedRun(w: World, wire: MacWire, mac: bytes, tail: bytes, isVerify: bool)
    requires wire.Printable() && w.resolve(Described(Legacy, wire.key)).Err? && |mac| == wire.Width()
    ensures Handle(w, wire.Family(), isVerify, wire.Print(mac + tail))
         == Failure(w.resolve(Described(Legacy, wire.key)).error, [])
  {
    hide Handle, MacWire.Print, MacWire.Algorithm, Described, IsKey, Failure;
    Handled(w, wire, mac, tail);
    Handled(w, wire, mac, mac + tail);
  }

  /** A payload that is no request is answered 15 without a call. */
  lemma MacMalformed(w: World, family: Family, isVerify: bool, payload: bytes)
    requires Parsed(family, payload, isVerify).Err?
    ensures Handle(w, family, isVerify, payload) == Coded('1', '5', [], [])
  {
    ErrorCodes();
    hide ErrorCode, Code, TakeFrom, ByteFrom, KeyFrom, CountedFrom, ParseUsize, Trim;
  }
}
