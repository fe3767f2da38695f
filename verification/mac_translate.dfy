/** MY, verify a MAC under one key and make another under a second (src/handlers/thales/mac_translate.rs). */
module MacTranslate {
  import opened Bytes
  import opened Reader
  import opened Keys
  import opened Apc
  import opened DukptMac
  import Mac

  /** One direction: how long its MAC is, how it is computed, under which key. */
  datatype Leg = Leg(size: nat, algorithm: MacAlgorithm, key: KeyDescriptor)

  datatype MyFields = MyFields(inbound: Leg, outbound: Leg, message: bytes)

  function LegFrom(rest: bytes): Result<(Leg, bytes)> {
    var (sizeByte, rest) :- ByteFrom(rest);
    var size :- SizeOf(sizeByte);
    var (algo, rest) :- ByteFrom(rest);
    var algorithm :- Mac.AlgorithmOf(algo);
    var (_, rest) :- ByteFrom(rest);
    var (_, rest) :- TakeFrom(rest, 3);
    var (key, rest) :- KeyFrom(Legacy, rest);
    Ok((Leg(size, algorithm, key), rest))
  }

  /** Everything but the MAC to verify. */
  function FieldsFrom(payload: bytes): Result<(MyFields, bytes)> {
    var (mode, rest) :- ByteFrom(payload);
    if mode != 0x30 then Err(UnsupportedMacMode)
    else
      var (format, rest) :- ByteFrom(rest);
      if format != 0x31 then Err(MalformedPayload)
      else
        var (inbound, rest) :- LegFrom(rest);
        var (outbound, rest) :- LegFrom(rest);
        var (message, rest) :- CountedFrom(rest, 4, 16, 2);
        Ok((MyFields(inbound, outbound, message), rest))
  }

  function MyFrom(payload: bytes): Result<((MyFields, bytes), bytes)> {
    var (f, rest) :- FieldsFrom(payload);
    var (mac, rest) :- TakeFrom(rest, f.inbound.size * 2);
    Ok(((f, mac), rest))
  }

  method ReadLeg(c: FieldReader) returns (r: Result<Leg>)
    requires c.Valid()
    modifies c`pos
    ensures c.Valid() && r == Value(LegFrom(old(c.Rest())))
    ensures r.Ok? ==> c.Rest() == LegFrom(old(c.Rest())).value.1
  {
    hide TakeFrom, ByteFrom, KeyFrom, Mac.AlgorithmOf, SizeOf, FieldReader.Rest, FieldReader.Valid;
    var sizeByte :- c.Byte();
    var size := SizeOf(sizeByte);
    if size.Err? {
      return Err(size.error);
    }
    var algo :- c.Byte();
    var algorithm := Mac.AlgorithmOf(algo);
    if algorithm.Err? {
      return Err(algorithm.error);
    }
    var pad :- c.Byte();
    var keyType :- c.Take(3);
    var key :- ReadKey(c, Legacy);
    r := Ok(Leg(size.value, algorithm.value, key));
  }

  method ParseMy(payload: bytes) returns (r: Result<(MyFields, bytes)>)
    ensures r == Value(MyFrom(payload))
  {
    hide TakeFrom, ByteFrom, LegFrom, CountedFrom, FieldReader.Rest, FieldReader.Valid;
    var c := new FieldReader(payload);
    var mode :- c.Byte();
    if mode != 0x30 {
      return Err(UnsupportedMacMode);
    }
    var format :- c.Byte();
    if format != 0x31 {
      return Err(MalformedPayload);
    }
    var inbound :- ReadLeg(c);
    var outbound :- ReadLeg(c);
    var message :- c.Counted(4, 16, 2);
    var mac :- c.Take(inbound.size * 2);
    r := Ok((MyFields(inbound, outbound, message), mac));
  }

  // ---------------------------------------------------------------- handler

  function Request(arn: bytes, leg: Leg, message: bytes): MacRequest {
    MacRequest(arn, Static(leg.algorithm), message)
  }

  function HandleMy(w: World, payload: bytes): (o: Outcome)
    ensures o.Done?
  {
    match MyFrom(payload)
    case Err(e) => Failure(e, [])
    case Ok(((f, mac), _)) => RunMy(w, f, mac)
  }

  function RunMy(w: World, f: MyFields, mac: bytes): (o: Outcome)
    ensures o.Done?
  {
    match w.resolve(f.inbound.key)
    case Err(e) => Failure(e, [])
    case Ok(inArn) =>
      match w.resolve(f.outbound.key)
      case Err(e) => Failure(e, [])
      case Ok(outArn) =>
        var outReq := Request(outArn, f.outbound, f.message);
        var (verdict, check) := CheckMac(w.apc, Request(inArn, f.inbound, f.message), mac);
        if verdict != Accepted then VerifyOutcome(verdict, [check])
        else
          match w.apc.generateMac(outReq)
          case None => Failure(ApcError, [check, GenerateMac(outReq)])
          case Some(full) => Success(Leading(full, f.outbound.size * 2), [check, GenerateMac(outReq)])
  }

  /** What MY has resolved once it parsed: the two requests, if both keys are known. */
  ghost predicate Resolved(w: World, f: MyFields, inReq: MacRequest, outReq: MacRequest) {
    && w.resolve(f.inbound.key).Ok? && inReq == Request(w.resolve(f.inbound.key).value, f.inbound, f.message)
    && w.resolve(f.outbound.key).Ok? && outReq == Request(w.resolve(f.outbound.key).value, f.outbound, f.message)
  }

  /** No run gets to the outbound generate call, its second and last, without an accepted check of
      the inbound MAC, and every run that fails the check ends there with 01 and nothing else. */
  lemma VerifiedBeforeGenerated(w: World, payload: bytes)
    ensures HandleMy(w, payload).Done?
    ensures var Done(reply, calls) := HandleMy(w, payload);
            && |calls| <= 2 && (reply.error == SUCCESS ==> |calls| == 2)
            && (reply.error != SUCCESS ==> reply.payload == [])
            && (calls != [] ==>
                  MyFrom(payload).Ok?
                  && var (f, mac) := MyFrom(payload).value.0;
                     exists inReq, outReq :: Resolved(w, f, inReq, outReq)
                       && var (verdict, check) := CheckMac(w.apc, inReq, mac);
                          && calls[0] == check
                          && (|calls| == 2 <==> verdict == Accepted)
                          && (|calls| == 2 ==> calls[1] == GenerateMac(outReq))
                          && (verdict == Mismatch ==> reply == Connection.Reply([0x30, 0x31], [])))
  {
    hide MyFrom, CheckMac;
    forall e ensures ErrorCode(e) != SUCCESS {
      NoErrorIsSuccess(e);
    }
    if HandleMy(w, payload).calls != [] {
      var (f, mac) := MyFrom(payload).value.0;
      assert Resolved(w, f, Request(w.resolve(f.inbound.key).value, f.inbound, f.message),
                      Request(w.resolve(f.outbound.key).value, f.outbound, f.message));
    }
  }

  // -------------------------------------------------------- printed requests

  datatype LegWire = LegWire(half: bool, algo: byte, pad: byte, keyType: bytes, key: bytes) {
    predicate Printable() {
      algo as char in {'1', '3', '6'} && |keyType| == 3 && IsKey(Legacy, key)
    }

    function Print(tail: bytes): bytes {
      [if half then 0x31 else 0x30] + ([algo] + ([pad] + (keyType + (key + tail))))
    }

    function Meaning(): Leg
      requires Printable()
    {
      Leg(if half then 2 else 4, Mac.Selected(algo), Described(Legacy, key))
    }
  }

  datatype MyWire = MyWire(inbound: LegWire, outbound: LegWire, digits: bytes, message: bytes) {
    predicate Printable() {
      && inbound.Printable() && outbound.Printable()
      && |digits| == 4 && ParseUsize(digits, 16).Some? && ParseUsize(digits, 16).value * 2 == |message|
    }

    /** `tail` starts with the inbound MAC. */
    function Print(tail: bytes): bytes {
      [0x30] + ([0x31] + inbound.Print(outbound.Print(digits + (message + tail))))
    }

    /** The M6 request for the outbound MAC. */
    function AsM6(): bytes {
      [0x30] + ([0x31] + outbound.Print(digits + (message + [])))
    }

    function Meaning(): MyFields
      requires Printable()
    {
      MyFields(inbound.Meaning(), outbound.Meaning(), message)
    }
  }

  lemma LegPrinted(w: LegWire, tail: bytes)
    requires w.Printable()
    ensures LegFrom(w.Print(tail)) == Ok((w.Meaning(), tail))
  {
    hide TakeFrom, ByteFrom, KeyFrom, Mac.AlgorithmOf, Mac.Selected, IsKey, Described;
    Mac.SelectorTable(w.algo);
    TakePrinted();
    BytePrinted();
    KeyPrinted();
  }

  lemma FieldsPrinted(w: MyWire, tail: bytes)
    requires w.Printable()
    ensures FieldsFrom(w.Print(tail)) == Ok((w.Meaning(), tail))
  {
    hide TakeFrom, ByteFrom, LegFrom, CountedFrom, LegWire.Print, LegWire.Printable, LegWire.Meaning, ParseUsize;
    BytePrinted();
    CountedPrinted();
    LegPrinted(w.inbound, w.outbound.Print(w.digits + (w.message + tail)));
    LegPrinted(w.outbound, w.digits + (w.message + tail));
  }

  lemma LegExact(rest: bytes) returns (w: LegWire)
    requires LegFrom(rest).Ok?
    ensures w.Printable() && rest == w.Print(LegFrom(rest).value.1) && LegFrom(rest).value.0 == w.Meaning()
  {
    hide TakeFrom, ByteFrom, KeyFrom, Mac.AlgorithmOf, Mac.Selected, IsKey, Described;
    var (size, r1) := ByteFrom(rest).value;
    var (algo, r2) := ByteFrom(r1).value;
    Mac.SelectorTable(algo);
    var (pad, r3) := ByteFrom(r2).value;
    var (keyType, r4) := TakeFrom(r3, 3).value;
    var (key, r5) := KeyFrom(Legacy, r4).value;
    KeyFromExact(Legacy, r4);
    w := LegWire(size == 0x31, algo, pad, keyType, key.raw);
  }

  /** Every accepted request is a printed one. */
  lemma FieldsExact(payload: bytes) returns (w: MyWire)
    requires FieldsFrom(payload).Ok?
    ensures w.Printable() && payload == w.Print(FieldsFrom(payload).value.1)
    ensures FieldsFrom(payload).value.0 == w.Meaning()
  {
    hide TakeFrom, ByteFrom, LegFrom, CountedFrom, LegWire.Print, LegWire.Printable, LegWire.Meaning, ParseUsize;
    var (_, r1) := ByteFrom(payload).value;
    var (_, r2) := ByteFrom(r1).value;
    var (_, r3) := LegFrom(r2).value;
    var (_, r4) := LegFrom(r3).value;
    var (message, r5) := CountedFrom(r4, 4, 16, 2).value;
    var inbound := LegExact(r2);
    var outbound := LegExact(r3);
    var digits := CountedExact(r4, 4, 16, 2);
    w := MyWire(inbound, outbound, digits, message);
  }

  // --------------------------------------------- the reply is used elsewhere

  lemma M6Printed(w: MyWire)
    requires w.Printable() && !w.outbound.half
    ensures Mac.M6From(w.AsM6())
         == Ok((Mac.MacFields(w.outbound.Meaning().algorithm, w.outbound.Meaning().key, w.message, 4), []))
  {
    hide KeyFrom, CountedFrom, IsKey, Described, ParseUsize, Mac.M6SelectorsFrom, Mac.Selected;
    KeyPrinted();
    CountedPrinted();
    var out := w.outbound;
    Mac.M6SelectorsPrinted('0' as int, out.algo, out.pad, out.keyType, out.key + (w.digits + (w.message + [])));
  }

  /** The reply to a MY request that asks for a whole MAC (size '0') verifies as M8 size '0' under
      the outbound key: appended to the request's own outbound header and message, it is answered
      00 exactly when APC's MAC fills those eight digits. */
  lemma ReplyVerifiesAsM8(w: World, payload: bytes, full: bytes) returns (wire: MyWire)
    requires MacContract(w.apc) && Succeeded(HandleMy(w, payload))
    requires MyFrom(payload).Ok? && MyFrom(payload).value.0.0.outbound.size == 4
    requires var out := MyFrom(payload).value.0.0.outbound;
             w.resolve(out.key).Ok?
             && w.apc.generateMac(Request(w.resolve(out.key).value, out, MyFrom(payload).value.0.0.message))
                == Some(full)
    ensures wire.Printable() && payload == wire.Print(FieldsFrom(payload).value.1)
    ensures Succeeded(Mac.Handle(w, Mac.M6, true, wire.AsM6() + HandleMy(w, payload).reply.payload))
       <==> |full| >= 8
  {
    hide FieldsFrom, CheckMac, Mac.M6From, MyWire.AsM6, MyWire.Print, LegWire.Printable;
    wire := FieldsExact(payload);
    M6Printed(wire);
    var (f, mac) := MyFrom(payload).value.0;
    RunReply(w, f, mac, full);
    Mac.GenerateThenVerify(w, Mac.M6, wire.AsM6(), full);
    hide RunMy, Leading;
  }

  /** Translations chain: a reply, whole or half, is accepted as the inbound MAC of a second MY
      whose inbound leg is the first one's outbound leg, exactly when it is not cut short and is not
      eight digits of a CMAC. */
  lemma TranslationsChain(w: World, first: MyWire, mac: bytes, next: LegWire, full: bytes)
    requires MacContract(w.apc) && first.Printable() && next.Printable()
    requires w.resolve(next.Meaning().key).Ok?
    requires Succeeded(HandleMy(w, first.Print(mac)))
    requires var out := first.Meaning().outbound;
             w.resolve(out.key).Ok?
             && w.apc.generateMac(Request(w.resolve(out.key).value, out, first.message)) == Some(full)
    ensures var second := MyWire(first.outbound, next, first.digits, first.message);
            var o := HandleMy(w, second.Print(HandleMy(w, first.Print(mac)).reply.payload));
            var out := first.Meaning().outbound;
            o.Done? && (|o.calls| == 2 <==> |full| >= out.size * 2 && (first.outbound.half || out.algorithm != Cmac))
  {
    var second := MyWire(first.outbound, next, first.digits, first.message);
    var out := first.Meaning().outbound;
    var shown := Leading(full, out.size * 2);
    HandlePrinted(w, first, mac);
    HandlePrinted(w, second, shown);
    NoErrorIsSuccess(MalformedPayload);
    var checked := mac[..first.Meaning().inbound.size * 2];
    RunReply(w, first.Meaning(), checked, full);
    WholeTaken(full, out.size * 2);
    hide RunMy, HandleMy, FieldsFrom, MyWire.Print, MacContract, Leading, IsKey, Described;
    if |full| >= out.size * 2 {
      NextRun(w, second.Meaning(), shown, full);
    }
    hide *;
  }

  lemma WholeTaken(full: bytes, n: nat)
    ensures |Leading(full, n)| == if n <= |full| then n else |full|
    ensures n <= |full| ==> Leading(full, n)[..n] == Leading(full, n) && Leading(full, n) <= full
  {
  }

  /** MY hands a whole inbound MAC to `verify_mac`, so it never accepts a size '0' CMAC, not even the
      one that M6 made and M8 accepts. */
  lemma WholeCmacNeverTranslated(w: World, payload: bytes)
    requires MacContract(w.apc) && MyFrom(payload).Ok?
    requires MyFrom(payload).value.0.0.inbound.algorithm == Cmac && MyFrom(payload).value.0.0.inbound.size == 4
    ensures HandleMy(w, payload).reply.error != SUCCESS && |HandleMy(w, payload).calls| <= 1
  {
    var (f, mac) := MyFrom(payload).value.0;
    WholeCmacRefused(w, f, mac);
    hide FieldsFrom, RunMy;
  }

  lemma WholeCmacRefused(w: World, f: MyFields, mac: bytes)
    requires MacContract(w.apc) && f.inbound.algorithm == Cmac && |mac| == 8
    ensures RunMy(w, f, mac).reply.error != SUCCESS && |RunMy(w, f, mac).calls| <= 1
  {
    forall arn ensures CheckMac(w.apc, Request(arn, f.inbound, f.message), mac).0 != Accepted {
      assert !Verifiable(Request(arn, f.inbound, f.message).scheme, |mac|);
    }
    hide CheckMac, Request, MacContract;
    forall e ensures ErrorCode(e) != SUCCESS {
      NoErrorIsSuccess(e);
    }
  }

  /** The two commands part on every whole CMAC: M8 accepts the reply M6 made under a leg, and MY
      refuses the same digits as the inbound MAC of that leg. */
  lemma OnlyM8TakesWholeCmac(w: World, wire: MyWire, full: bytes)
    requires MacContract(w.apc) && wire.Printable() && wire.inbound == wire.outbound && !wire.outbound.half
    requires var out := wire.Meaning().outbound;
             out.algorithm == Cmac && w.resolve(out.key).Ok? && |full| >= 8
             && w.apc.generateMac(Request(w.resolve(out.key).value, out, wire.message)) == Some(full)
    ensures Succeeded(Mac.Handle(w, Mac.M6, true, wire.AsM6() + full[..8]))
    ensures HandleMy(w, wire.Print(full[..8])).reply.error != SUCCESS
  {
    M6ThenM8(w, wire, full);
    NotTranslated(w, wire, full[..8]);
    hide *;
  }

  lemma M6ThenM8(w: World, wire: MyWire, full: bytes)
    requires MacContract(w.apc) && wire.Printable() && !wire.outbound.half && |full| >= 8
    requires var out := wire.Meaning().outbound;
             w.resolve(out.key).Ok?
             && w.apc.generateMac(Request(w.resolve(out.key).value, out, wire.message)) == Some(full)
    ensures Succeeded(Mac.Handle(w, Mac.M6, true, wire.AsM6() + full[..8]))
  {
    M6Printed(wire);
    hide MyWire.AsM6, Mac.M6From, LegWire.Printable, Mac.Verify;
    Mac.GenerateThenVerify(w, Mac.M6, wire.AsM6(), full);
  }

  lemma NotTranslated(w: World, wire: MyWire, mac: bytes)
    requires MacContract(w.apc) && wire.Printable() && !wire.inbound.half && |mac| == 8
    requires wire.Meaning().inbound.algorithm == Cmac
    ensures HandleMy(w, wire.Print(mac)).reply.error != SUCCESS
  {
    HandlePrinted(w, wire, mac);
    assert mac[..8] == mac;
    WholeCmacRefused(w, wire.Meaning(), mac);
    hide RunMy, HandleMy, MyWire.Print, LegWire.Printable;
  }

  /** A half inbound MAC lets MY go on if and only if it is the first four digits of the MAC under
      the inbound key, in either case. */
  lemma HalfInboundAccepted(w: World, payload: bytes)
    requires MyFrom(payload).Ok? && MyFrom(payload).value.0.0.inbound.size == 2
    ensures var (f, mac) := MyFrom(payload).value.0;
            |HandleMy(w, payload).calls| == 2
            <==> w.resolve(f.inbound.key).Ok? && w.resolve(f.outbound.key).Ok?
                 && var full := w.apc.generateMac(Request(w.resolve(f.inbound.key).value, f.inbound, f.message));
                    full.Some? && |full.value| >= 4 && Upper(full.value[..4]) == Upper(mac)
  {
    var (f, mac) := MyFrom(payload).value.0;
    assert |mac| == 4;
    hide FieldsFrom, CheckMac;
    if w.resolve(f.inbound.key).Ok? {
      HalfMacChecked(w.apc, Request(w.resolve(f.inbound.key).value, f.inbound, f.message), mac);
    }
  }

  /** A printed request is run on its fields, if a whole MAC follows them. */
  lemma HandlePrinted(w: World, wire: MyWire, tail: bytes)
    requires wire.Printable()
    ensures var n := wire.Meaning().inbound.size * 2;
            HandleMy(w, wire.Print(tail))
            == if |tail| >= n then RunMy(w, wire.Meaning(), tail[..n]) else Failure(MalformedPayload, [])
  {
    FieldsPrinted(wire, tail);
    hide FieldsFrom, RunMy, MyWire.Print, LegWire.Printable, LegWire.Meaning;
  }

  lemma RunReply(w: World, f: MyFields, mac: bytes, full: bytes)
    requires Succeeded(RunMy(w, f, mac)) && w.resolve(f.outbound.key).Ok?
    requires w.apc.generateMac(Request(w.resolve(f.outbound.key).value, f.outbound, f.message)) == Some(full)
    ensures RunMy(w, f, mac).reply.payload == Leading(full, f.outbound.size * 2)
  {
    hide CheckMac;
    forall e ensures ErrorCode(e) != SUCCESS {
      NoErrorIsSuccess(e);
    }
  }

  lemma NextRun(w: World, f: MyFields, mac: bytes, full: bytes)
    requires MacContract(w.apc) && mac <= full && (|mac| == 4 || |mac| == 8)
    requires w.resolve(f.inbound.key).Ok? && w.resolve(f.outbound.key).Ok?
    requires w.apc.generateMac(Request(w.resolve(f.inbound.key).value, f.inbound, f.message)) == Some(full)
    ensures |RunMy(w, f, mac).calls| == 2 <==> |mac| == 4 || f.inbound.algorithm != Cmac
  {
    hide CheckMac, MacContract;
    CheckMeaning(w.apc, Request(w.resolve(f.inbound.key).value, f.inbound, f.message), mac);
  }

  // ------------------------------------------- from the wire to APC and back

  /** Once both keys are known: the inbound check, and the outbound MAC if it was accepted. */
  lemma RunMeans(w: World, f: MyFields, mac: bytes, inArn: bytes, outArn: bytes)
    requires w.resolve(f.inbound.key) == Ok(inArn) && w.resolve(f.outbound.key) == Ok(outArn)
    ensures var inReq := MacRequest(inArn, Static(f.inbound.algorithm), f.message);
            var outReq := MacRequest(outArn, Static(f.outbound.algorithm), f.message);
            var (verdict, check) := CheckMac(w.apc, inReq, mac);
            RunMy(w, f, mac) == if verdict == Accepted then GenerateAnswer(w.apc, outReq, f.outbound.size * 2, [check])
                                else VerdictAnswer(verdict, [check])
  {
    ErrorCodes();
    var (verdict, check) := CheckMac(w.apc, Request(inArn, f.inbound, f.message), mac);
    VerdictAnswered(verdict, [check]);
    hide ErrorCode, Code, VerdictAnswer, VerifyOutcome, CheckMac;
  }

  /** MY checks the inbound MAC of the very message on the wire under the first key, by the first leg's
      algorithm, and if APC accepts it answers with the MAC of that message under the second key, by
      the second leg's. */
  lemma MyRun(w: World, wire: MyWire, mac: bytes, tail: bytes, inArn: bytes, outArn: bytes)
    requires wire.Printable() && |mac| == if wire.inbound.half then 4 else 8
    requires w.resolve(Described(Legacy, wire.inbound.key)) == Ok(inArn)
    requires w.resolve(Described(Legacy, wire.outbound.key)) == Ok(outArn)
    ensures var inReq := MacRequest(inArn, Static(Mac.Selected(wire.inbound.algo)), wire.message);
            var outReq := MacRequest(outArn, Static(Mac.Selected(wire.outbound.algo)), wire.message);
            var verdict := if wire.inbound.half then HalfVerdict(w.apc.generateMac(inReq), mac)
                           else w.apc.verifyMac(inReq, mac);
            var check := if wire.inbound.half then GenerateMac(inReq) else VerifyMac(inReq, mac);
            HandleMy(w, wire.Print(mac + tail)) ==
              if verdict == Accepted then GenerateAnswer(w.apc, outReq, if wire.outbound.half then 4 else 8, [check])
              else VerdictAnswer(verdict, [check])
  {
    hide HandleMy, RunMy, MyWire.Print, GenerateAnswer, VerdictAnswer, HalfVerdict, Described, IsKey, CheckMac,
         Mac.Selected, ParseUsize;
    HandlePrinted(w, wire, mac + tail);
    assert (mac + tail)[..|mac|] == mac;
    RunMeans(w, wire.Meaning(), mac, inArn, outArn);
    CheckMacMeans(w.apc, MacRequest(inArn, Static(Mac.Selected(wire.inbound.algo)), wire.message), mac);
  }

  /** A key that is not known ends the command before any call, the inbound one first. */
  lemma MyUnresolved(w: World, wire: MyWire, mac: bytes, tail: bytes)
    requires wire.Printable() && |mac| == if wire.inbound.half then 4 else 8
    ensures var first := w.resolve(Described(Legacy, wire.inbound.key));
            var second := w.resolve(Described(Legacy, wire.outbound.key));
            var o := HandleMy(w, wire.Print(mac + tail));
            && (first.Err? ==> o == Failure(first.error, []))
            && (first.Ok? && second.Err? ==> o == Failure(second.error, []))
  {
    hide HandleMy, MyWire.Print, Described, IsKey, CheckMac, Mac.Selected, ParseUsize, Failure;
    HandlePrinted(w, wire, mac + tail);
  }

  /** A payload that is no request is answered 15 without a call. */
  lemma MyMalformed(w: World, payload: bytes)
    requires MyFrom(payload).Err?
    ensures HandleMy(w, payload) == Coded('1', '5', [], [])
  {
    ErrorCodes();
    hide ErrorCode, Code, TakeFrom, ByteFrom, KeyFrom, CountedFrom;
  }
}
