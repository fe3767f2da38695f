/** Legacy MAC commands (src/handlers/thales/legacy_mac.rs): '~'-terminated MA/MC/ME, and the
    length-prefixed MK/MM/MO and, behind a mode byte, MU/MW/MQ/MS. */
module LegacyMac {
  import opened Bytes
  import opened Reader
  import opened Keys
  import opened Apc

  datatype Command = MA | MC | ME | MK | MM | MO | MU | MW | MQ | MS

  const TILDE: byte := 0x7E
  const MAC_HEX_LEN: nat := 8

  predicate Tilde(c: Command) {
    c.MA? || c.MC? || c.ME?
  }

  predicate Moded(c: Command) {
    c.MU? || c.MW? || c.MQ? || c.MS?
  }

  /** Only mode '0', the one-call message, can be carried out without chaining state. */
  function ModeFrom(c: Command, payload: bytes): Result<bytes> {
    if !Moded(c) then Ok(payload)
    else if payload == [] || payload[0] != 0x30 then Err(MalformedPayload)
    else Ok(payload[1..])
  }

  /** parse_len_binary: three hex digits, then that many raw bytes. */
  function LenBinary(rest: bytes): (r: Result<(bytes, nat)>)
    ensures r.Ok? ==> r.value.1 <= |rest|
  {
    if |rest| < 3 then Err(MalformedPayload)
    else
      match ParseUsize(rest[..3], 16)
      case None => Err(MalformedPayload)
      case Some(n) => if |rest| < 3 + n then Err(MalformedPayload) else Ok((rest[3..3 + n], 3 + n))
  }

  /** The bytes to be authenticated; whatever follows them is ignored. */
  function DataOf(c: Command, rest: bytes): Result<bytes> {
    if Tilde(c) then Ok(UpTo(rest, TILDE))
    else
      var (data, _) :- LenBinary(rest);
      Ok(data)
  }

  datatype LegacyFields = LegacyFields(key: KeyDescriptor, target: Option<KeyDescriptor>, mac: bytes, data: bytes)

  predicate Generates(c: Command) {
    c.MA? || c.MK? || c.MU? || c.MQ? || c.MS?
  }

  predicate Translates(c: Command) {
    c.ME? || c.MO?
  }

  function TargetFrom(c: Command, rest: bytes): Result<(Option<KeyDescriptor>, bytes)> {
    if !Translates(c) then Ok((None, rest))
    else
      var (target, rest) :- KeyFrom(Legacy, rest);
      Ok((Some(target), rest))
  }

  /** Mode, key, second key of a translation, MAC unless generating, data. */
  function LegacyFrom(c: Command, payload: bytes): Result<LegacyFields> {
    var rest :- ModeFrom(c, payload);
    var (key, rest) :- KeyFrom(Legacy, rest);
    var (target, rest) :- TargetFrom(c, rest);
    var (mac, rest) :- TakeFrom(rest, if Generates(c) then 0 else MAC_HEX_LEN);
    var data :- DataOf(c, rest);
    Ok(LegacyFields(key, target, mac, data))
  }

  // ---------------------------------------------------------------- handler

  function Request(c: Command, arn: bytes, data: bytes): MacRequest {
    MacRequest(arn, Static(if c.MS? then Alg3 else Alg1), Hex(data))
  }

  function GenerateReply(w: World, req: MacRequest, before: seq<Call>): Outcome {
    match w.apc.generateMac(req)
    case None => Failure(ApcError, before + [GenerateMac(req)])
    case Some(full) => Success(Leading(full, MAC_HEX_LEN), before + [GenerateMac(req)])
  }

  function VerifyThenGenerate(w: World, inReq: MacRequest, outReq: MacRequest, mac: bytes): Outcome {
    var verdict, calls := w.apc.verifyMac(inReq, mac), [VerifyMac(inReq, mac)];
    if verdict.Accepted? then GenerateReply(w, outReq, calls) else VerifyOutcome(verdict, calls)
  }

  function RunLegacy(w: World, c: Command, f: LegacyFields): (o: Outcome)
    ensures o.Done?
  {
    match w.resolve(f.key)
    case Err(e) => Failure(e, [])
    case Ok(arn) =>
      var req := Request(c, arn, f.data);
      match f.target
      case Some(target) =>
        (match w.resolve(target)
         case Err(e) => Failure(e, [])
         case Ok(targetArn) => VerifyThenGenerate(w, req, Request(c, targetArn, f.data), f.mac))
      case None =>
        if Generates(c) then GenerateReply(w, req, [])
        else VerifyOutcome(w.apc.verifyMac(req, f.mac), [VerifyMac(req, f.mac)])
  }

  function HandleLegacy(w: World, c: Command, payload: bytes): (o: Outcome)
    ensures o.Done?
  {
    match LegacyFrom(c, payload)
    case Err(e) => Failure(e, [])
    case Ok(f) => RunLegacy(w, c, f)
  }

  // ------------------------------------------------------ what is not read

  lemma Regrouped(a: bytes, b: bytes, c: bytes, d: bytes)
    ensures (a + (b + c)) + d == a + (b + (c + d))
  {
  }

  /** Nothing from the first '~' on, and nothing past the declared length, changes the data. */
  lemma DataStable(c: Command, rest: bytes, more: bytes)
    requires DataOf(c, rest).Ok? && (Tilde(c) ==> TILDE in rest)
    ensures DataOf(c, rest + more) == DataOf(c, rest)
  {
    if Tilde(c) {
      var data := UpTo(rest, TILDE);
      var after := rest[|data| + 1..];
      assert rest == data + ([TILDE] + after);
      Regrouped(data, [TILDE], after, more);
      UpToPrinted(data, TILDE, after + more);
      hide UpTo;
    } else {
      var n := ParseUsize(rest[..3], 16).value;
      assert (rest + more)[..3] == rest[..3] && (rest + more)[3..3 + n] == rest[3..3 + n];
    }
  }

  // ---------------------------------------------------- replies verify again

  /** The command that checks what a generate command makes. MS makes an X9.19 MAC, and no legacy
      command checks one. */
  function Checker(c: Command): Command
    requires Generates(c) && !c.MS?
  {
    match c
    case MA => MC
    case MK => MM
    case MU => MW
    case MQ => MW
  }

  /** Where in a payload the MAC goes: after the mode byte and the key. */
  function KeyEnd(c: Command, payload: bytes): (n: nat)
    requires LegacyFrom(c, payload).Ok?
    ensures n <= |payload|
  {
    |payload| - |KeyFrom(Legacy, ModeFrom(c, payload).value).value.1|
  }

  lemma Spliced(mode: bytes, key: bytes, data: bytes, mac: bytes, payload: bytes, k: nat)
    requires payload == mode + (key + data) && k + |data| == |payload| && |mode| <= 1
    ensures payload[k..] == data
    ensures var again := payload[..k] + (mac + payload[k..]);
            again == mode + (key + (mac + data)) && again[|mode|..] == key + (mac + data)
            && (mode != [] ==> again[0] == mode[0])
  {
    assert payload == (mode + key) + data;
    assert payload[..k] == mode + key;
    Regroup3(mode, key, mac + data);
  }

  lemma Regroup3(a: bytes, b: bytes, c: bytes)
    ensures (a + b) + c == a + (b + c) && (a + (b + c))[|a|..] == b + c
  {
  }

  /** A checker's fields after its key: eight digits, then data. */
  function CheckedFrom(c: Command, key: KeyDescriptor, field: bytes): Result<LegacyFields> {
    var (mac, rest) :- TakeFrom(field, MAC_HEX_LEN);
    var data :- DataOf(c, rest);
    Ok(LegacyFields(key, None, mac, data))
  }

  /** Whatever is put there is read as the beginning of a MAC field. */
  lemma ReplyInserted(c: Command, payload: bytes, mac: bytes)
    requires Generates(c) && !c.MS? && LegacyFrom(c, payload).Ok?
    ensures var k := KeyEnd(c, payload);
            LegacyFrom(Checker(c), payload[..k] + (mac + payload[k..]))
            == CheckedFrom(c, LegacyFrom(c, payload).value.key, mac + payload[k..])
  {
    hide KeyFrom, TakeFrom, DataOf, KeyField;
    TakePrinted();
    var rest := ModeFrom(c, payload).value;
    var (key, data) := KeyFrom(Legacy, rest).value;
    KeyFromExact(Legacy, rest);
    KeyPrinted();
    var k := KeyEnd(c, payload);
    if Moded(c) {
      Spliced([payload[0]], key.raw, data, mac, payload, k);
    } else {
      assert [] + (key.raw + data) == payload;
      Spliced([], key.raw, data, mac, payload, k);
    }
    forall rest ensures DataOf(Checker(c), rest) == DataOf(c, rest) {
      DataShared(c, rest);
    }
  }

  lemma DataAfterKey(c: Command, payload: bytes)
    requires Generates(c) && LegacyFrom(c, payload).Ok?
    ensures var f := LegacyFrom(c, payload).value;
            f.target.None? && DataOf(c, payload[KeyEnd(c, payload)..]) == Ok(f.data)
  {
    hide KeyFrom, DataOf, KeyField;
    var rest := ModeFrom(c, payload).value;
    var (key, data) := KeyFrom(Legacy, rest).value;
    KeyFromExact(Legacy, rest);
    var k := KeyEnd(c, payload);
    assert rest == key.raw + data && payload[k..] == data;
    assert [] + data == data;
  }

  lemma DataShared(c: Command, rest: bytes)
    requires Generates(c) && !c.MS?
    ensures DataOf(Checker(c), rest) == DataOf(c, rest)
  {
  }

  /** A checker given too few MAC digits takes the first data bytes for the rest of them, and finds
      them to be the MAC of the data that is left. */
  predicate Misread(w: World, c: Command, arn: bytes, mac: bytes, data: bytes) {
    var field := mac + data;
    && |mac| < MAC_HEX_LEN <= |field| && DataOf(c, field[MAC_HEX_LEN..]).Ok?
    && w.apc.verifyMac(Request(c, arn, DataOf(c, field[MAC_HEX_LEN..]).value), field[..MAC_HEX_LEN]) == Accepted
  }

  lemma CheckedRun(w: World, c: Command, key: KeyDescriptor, mac: bytes, data: bytes)
    requires Generates(c) && !c.MS? && w.resolve(key).Ok? && |mac| < MAC_HEX_LEN
    ensures var f := CheckedFrom(c, key, mac + data);
            f.Ok? && Succeeded(RunLegacy(w, Checker(c), f.value)) <==> Misread(w, c, w.resolve(key).value, mac, data)
  {
    hide DataOf, Hex;
    NoErrorSucceeds();
  }

  /** The reply of MA, MK, MU or MQ, put between key and data of the very same payload, is answered 00
      by MC, MM or MW exactly when it has all eight digits or is misread, whatever the data is. */
  lemma LegacyGenerateThenVerify(w: World, c: Command, payload: bytes, full: bytes)
    requires MacContract(w.apc) && Generates(c) && !c.MS? && LegacyFrom(c, payload).Ok?
    requires var f := LegacyFrom(c, payload).value;
             w.resolve(f.key).Ok? && w.apc.generateMac(Request(c, w.resolve(f.key).value, f.data)) == Some(full)
    ensures Succeeded(HandleLegacy(w, c, payload))
    ensures var k, arn := KeyEnd(c, payload), w.resolve(LegacyFrom(c, payload).value.key).value;
            var mac := HandleLegacy(w, c, payload).reply.payload;
            Succeeded(HandleLegacy(w, Checker(c), payload[..k] + (mac + payload[k..])))
            <==> |full| >= MAC_HEX_LEN || Misread(w, c, arn, mac, payload[k..])
  {
    var f, k, mac := LegacyFrom(c, payload).value, KeyEnd(c, payload), Leading(full, MAC_HEX_LEN);
    DataAfterKey(c, payload);
    ReplyInserted(c, payload, mac);
    NoErrorSucceeds();
    hide KeyFrom, TakeFrom, DataOf, KeyField, LegacyFrom, ModeFrom, KeyEnd, Hex, ErrorCode, Misread, CheckedFrom;
    if |full| >= MAC_HEX_LEN {
      WholeMacField(c, f.key, mac, payload[k..]);
    } else {
      CheckedRun(w, c, f.key, mac, payload[k..]);
    }
  }

  lemma WholeMacField(c: Command, key: KeyDescriptor, mac: bytes, data: bytes)
    requires |mac| == MAC_HEX_LEN && DataOf(c, data).Ok?
    ensures CheckedFrom(c, key, mac + data) == Ok(LegacyFields(key, None, mac, DataOf(c, data).value))
  {
    hide DataOf, TakeFrom;
    TakePrinted();
  }

  lemma ShortMacNeverAccepted(apc: Client, req: MacRequest, mac: bytes, n: nat)
    requires MacContract(apc) && MacLength(apc, n) && n < |mac|
    ensures apc.verifyMac(req, mac) != Accepted
  {
    assert |Upper(mac)| == |mac|;
  }

  /** If APC's MACs are shorter than eight digits, no MC, MM or MW is ever answered 00. */
  lemma ShortMacsNeverVerify(w: World, c: Command, payload: bytes, n: nat)
    requires MacContract(w.apc) && MacLength(w.apc, n) && n < MAC_HEX_LEN
    requires !Generates(c) && !Translates(c)
    ensures !Succeeded(HandleLegacy(w, c, payload))
  {
    if LegacyFrom(c, payload).Ok? {
      MacWidth(c, payload);
      ShortRunFails(w, c, LegacyFrom(c, payload).value, n);
    } else {
      NoErrorIsSuccess(LegacyFrom(c, payload).error);
    }
    hide LegacyFrom, RunLegacy, ErrorCode;
  }

  lemma ShortRunFails(w: World, c: Command, f: LegacyFields, n: nat)
    requires MacContract(w.apc) && MacLength(w.apc, n) && n < |f.mac|
    requires !Generates(c) && f.target.None?
    ensures !Succeeded(RunLegacy(w, c, f))
  {
    NoErrorSucceeds();
    if w.resolve(f.key).Ok? {
      ShortMacNeverAccepted(w.apc, Request(c, w.resolve(f.key).value, f.data), f.mac, n);
    }
    hide Request, ErrorCode, Generates;
  }

  lemma NoErrorSucceeds()
    ensures forall e :: ErrorCode(e) != SUCCESS
  {
    forall e ensures ErrorCode(e) != SUCCESS {
      NoErrorIsSuccess(e);
    }
  }

  lemma MacWidth(c: Command, payload: bytes)
    requires !Generates(c) && !Translates(c) && LegacyFrom(c, payload).Ok?
    ensures var f := LegacyFrom(c, payload).value; |f.mac| == MAC_HEX_LEN && f.target.None?
  {
    hide KeyFrom, DataOf;
  }

  /** When all of APC's MACs have n digits, MC, MM and MW accept what MA, MK, MU and MQ made if and
      only if n is at least eight. */
  lemma LegacyVerifiesExactly(w: World, c: Command, payload: bytes, n: nat)
    requires MacContract(w.apc) && MacLength(w.apc, n) && Generates(c) && !c.MS? && LegacyFrom(c, payload).Ok?
    requires var f := LegacyFrom(c, payload).value;
             w.resolve(f.key).Ok? && w.apc.generateMac(Request(c, w.resolve(f.key).value, f.data)).Some?
    ensures var k := KeyEnd(c, payload);
            var mac := HandleLegacy(w, c, payload).reply.payload;
            Succeeded(HandleLegacy(w, Checker(c), payload[..k] + (mac + payload[k..]))) <==> n >= MAC_HEX_LEN
  {
    var f := LegacyFrom(c, payload).value;
    var full := w.apc.generateMac(Request(c, w.resolve(f.key).value, f.data)).value;
    var k, mac := KeyEnd(c, payload), HandleLegacy(w, c, payload).reply.payload;
    assert !Generates(Checker(c)) && !Translates(Checker(c));
    if n >= MAC_HEX_LEN {
      LegacyGenerateThenVerify(w, c, payload, full);
    } else {
      ShortMacsNeverVerify(w, Checker(c), payload[..k] + (mac + payload[k..]), n);
    }
    hide *;
  }

  lemma NoTarget(c: Command, payload: bytes)
    requires !Translates(c) && LegacyFrom(c, payload).Ok?
    ensures LegacyFrom(c, payload).value.target.None?
  {
  }

  // --------------------------------------------------- verify, then generate

  lemma HasTarget(c: Command, payload: bytes)
    requires Translates(c) && LegacyFrom(c, payload).Ok?
    ensures LegacyFrom(c, payload).value.target.Some?
  {
    hide KeyFrom, TakeFrom, DataOf;
  }

  /** Calls and reply of a translation between two requests: the outbound MAC is the second and
      last call, made exactly when the inbound MAC was accepted; a mismatch ends with 01. */
  ghost predicate VerifiedFirst(w: World, inReq: MacRequest, outReq: MacRequest, mac: bytes, o: Outcome) {
    o.Done?
    && |o.calls| > 0 && o.calls[0] == VerifyMac(inReq, mac)
    && (if w.apc.verifyMac(inReq, mac) == Accepted then o.calls[1..] == [GenerateMac(outReq)] else |o.calls| == 1)
    && (w.apc.verifyMac(inReq, mac) == Mismatch ==> o.reply == Connection.Reply([0x30, 0x31], []))
    && (o.reply.error == SUCCESS ==> |o.calls| == 2)
    && (o.reply.error != SUCCESS ==> o.reply.payload == [])
  }

  lemma VerifyThenGenerateOrder(w: World, inReq: MacRequest, outReq: MacRequest, mac: bytes)
    ensures VerifiedFirst(w, inReq, outReq, mac, VerifyThenGenerate(w, inReq, outReq, mac))
  {
    NoErrorIsSuccess(ApcError);
    NoErrorIsSuccess(VerificationFailed);
  }

  /** An ME or MO that called APC at all had resolved both keys and kept that order. */
  lemma TranslationVerifiesFirst(w: World, c: Command, payload: bytes)
    requires Translates(c) && HandleLegacy(w, c, payload).calls != []
    ensures LegacyFrom(c, payload).Ok?
    ensures var f := LegacyFrom(c, payload).value;
            && f.target.Some? && w.resolve(f.key).Ok? && w.resolve(f.target.value).Ok?
            && VerifiedFirst(w, Request(c, w.resolve(f.key).value, f.data),
                             Request(c, w.resolve(f.target.value).value, f.data), f.mac, HandleLegacy(w, c, payload))
  {
    HasTarget(c, payload);
    hide LegacyFrom, Request, VerifiedFirst, VerifyThenGenerate, Translates, Generates, ErrorCode;
    var f := LegacyFrom(c, payload).value;
    VerifyThenGenerateOrder(w, Request(c, w.resolve(f.key).value, f.data),
                            Request(c, w.resolve(f.target.value).value, f.data), f.mac);
  }

  /** The plain verify command over the same kind of data. */
  function PlainVerify(c: Command): Command
    requires Translates(c)
  {
    if c.ME? then MC else MM
  }

  /** What ME or MO made verifies under the second key: that key, the reply and the request's data
      are an MC or MM request answered 00. */
  lemma TranslatedMacVerifies(w: World, c: Command, first: bytes, second: bytes, mac: bytes, data: bytes, full: bytes)
    requires MacContract(w.apc) && Translates(c) && |mac| == MAC_HEX_LEN
    requires IsKey(Legacy, first) && IsKey(Legacy, second)
    requires Succeeded(HandleLegacy(w, c, first + (second + (mac + data))))
    requires DataOf(c, data).Ok? && w.resolve(Described(Legacy, second)).Ok?
    requires w.apc.generateMac(Request(c, w.resolve(Described(Legacy, second)).value, DataOf(c, data).value))
          == Some(full)
    requires |full| >= MAC_HEX_LEN
    ensures var made := HandleLegacy(w, c, first + (second + (mac + data))).reply.payload;
            Succeeded(HandleLegacy(w, PlainVerify(c), second + (made + data)))
  {
    TranslatePrinted(c, first, second, mac, data);
    PlainPrinted(c, second, full[..MAC_HEX_LEN], data);
    TranslatedRun(w, c, LegacyFrom(c, first + (second + (mac + data))).value, full);
    hide LegacyFrom, DataOf, RunLegacy, Described, IsKey, PlainVerify;
  }

  /** When all of APC's MACs have one length, no condition on it is needed: a translation that was
      answered 00 had its own inbound MAC accepted, so they have eight digits. */
  lemma TranslatedMacAlwaysVerifies(w: World, c: Command, first: bytes, second: bytes, mac: bytes, data: bytes, n: nat)
    requires MacContract(w.apc) && MacLength(w.apc, n) && Translates(c) && |mac| == MAC_HEX_LEN
    requires IsKey(Legacy, first) && IsKey(Legacy, second) && DataOf(c, data).Ok?
    requires Succeeded(HandleLegacy(w, c, first + (second + (mac + data))))
    ensures n >= MAC_HEX_LEN
    ensures var made := HandleLegacy(w, c, first + (second + (mac + data))).reply.payload;
            Succeeded(HandleLegacy(w, PlainVerify(c), second + (made + data)))
  {
    TranslatePrinted(c, first, second, mac, data);
    var f := LegacyFields(Described(Legacy, first), Some(Described(Legacy, second)), mac, DataOf(c, data).value);
    TranslatedCalls(w, c, f, n);
    TranslatedMacVerifies(w, c, first, second, mac, data,
                          w.apc.generateMac(Request(c, w.resolve(f.target.value).value, f.data)).value);
    hide *;
  }

  lemma TranslatedCalls(w: World, c: Command, f: LegacyFields, n: nat)
    requires MacContract(w.apc) && MacLength(w.apc, n) && f.target.Some? && |f.mac| == MAC_HEX_LEN
    requires Succeeded(RunLegacy(w, c, f))
    ensures n >= MAC_HEX_LEN && w.resolve(f.target.value).Ok?
    ensures var made := w.apc.generateMac(Request(c, w.resolve(f.target.value).value, f.data));
            made.Some? && |made.value| == n
  {
    NoErrorSucceeds();
    if w.resolve(f.key).Ok? && n < MAC_HEX_LEN {
      ShortMacNeverAccepted(w.apc, Request(c, w.resolve(f.key).value, f.data), f.mac, n);
    }
    hide MacContract, Request, ErrorCode;
  }

  lemma TranslatedRun(w: World, c: Command, f: LegacyFields, full: bytes)
    requires MacContract(w.apc) && Translates(c) && f.target.Some? && w.resolve(f.target.value).Ok?
    requires Succeeded(RunLegacy(w, c, f)) && |full| >= MAC_HEX_LEN
    requires w.apc.generateMac(Request(c, w.resolve(f.target.value).value, f.data)) == Some(full)
    ensures RunLegacy(w, c, f).reply.payload == full[..MAC_HEX_LEN]
    ensures Succeeded(RunLegacy(w, PlainVerify(c), LegacyFields(f.target.value, None, full[..MAC_HEX_LEN], f.data)))
  {
    hide Hex;
    if w.resolve(f.key).Err? {
      NoErrorIsSuccess(w.resolve(f.key).error);
    }
    NoErrorIsSuccess(ApcError);
    NoErrorIsSuccess(VerificationFailed);
  }

  lemma TranslatePrinted(c: Command, first: bytes, second: bytes, mac: bytes, data: bytes)
    requires Translates(c) && IsKey(Legacy, first) && IsKey(Legacy, second) && |mac| == MAC_HEX_LEN
    requires DataOf(c, data).Ok?
    ensures LegacyFrom(c, first + (second + (mac + data)))
         == Ok(LegacyFields(Described(Legacy, first), Some(Described(Legacy, second)), mac, DataOf(c, data).value))
  {
    hide KeyFrom, TakeFrom, DataOf, IsKey, Described;
    TakePrinted();
    KeyPrinted();
  }

  lemma PlainPrinted(c: Command, key: bytes, mac: bytes, data: bytes)
    requires Translates(c) && IsKey(Legacy, key) && |mac| == MAC_HEX_LEN && DataOf(c, data).Ok?
    ensures LegacyFrom(PlainVerify(c), key + (mac + data))
         == Ok(LegacyFields(Described(Legacy, key), None, mac, DataOf(c, data).value))
  {
    var plain := PlainVerify(c);
    assert DataOf(plain, data) == DataOf(c, data);
    assert !Moded(plain) && !Translates(plain) && !Generates(plain);
    hide KeyFrom, TakeFrom, DataOf, IsKey, Described, PlainVerify, Moded, Translates, Generates;
    TakePrinted();
    KeyPrinted();
  }

  // ------------------------------------------- from the wire to APC and back

  /** These bytes are, or begin with, this data: it runs to the first '~' or to the end in MA, MC and ME,
      and is counted by three hex digits before it in the other commands. */
  predicate Carries(c: Command, field: bytes, data: bytes) {
    match c
    case MA | MC | ME =>
      '~' as int !in data && data <= field && (|field| > |data| ==> field[|data|] == '~' as int)
    case MK | MM | MO | MU | MW | MQ | MS =>
      |field| >= 3 + |data| && ParseUsize(field[..3], 16) == Some(|data|) && field[3..3 + |data|] == data
  }

  lemma CarriedData(c: Command, field: bytes, data: bytes)
    requires Carries(c, field, data)
    ensures DataOf(c, field) == Ok(data)
  {
    hide ParseUsize;
    if Tilde(c) {
      if |field| == |data| {
        assert field == data;
      } else {
        UpToPrinted(data, TILDE, field[|data| + 1..]);
        assert field == data + ([TILDE] + field[|data| + 1..]);
      }
    }
  }

  /** A '0' comes first in the commands that could be chained. */
  function Opening(c: Command): bytes {
    match c
    case MU | MW | MQ | MS => ['0' as int]
    case MA | MC | ME | MK | MM | MO => []
  }

  lemma Opened(c: Command, rest: bytes)
    ensures ModeFrom(c, Opening(c) + rest) == Ok(rest)
  {
    assert [] + rest == rest;
    assert (['0' as int] + rest)[1..] == rest;
  }

  lemma MadeReply(w: World, req: MacRequest, before: seq<Call>)
    ensures GenerateReply(w, req, before) == GenerateAnswer(w.apc, req, 8, before)
  {
    ErrorCodes();
    hide ErrorCode, Code;
  }

  /** MA, MK, MU and MQ ask APC for the ISO 9797-1 algorithm 1 MAC of the data on the wire, MS for the
      algorithm 3 MAC, and answer with its first eight digits. */
  lemma GeneratorRun(w: World, c: Command, key: bytes, field: bytes, data: bytes, arn: bytes)
    requires c in {MA, MK, MU, MQ, MS} && IsKey(Legacy, key) && Carries(c, field, data)
    requires w.resolve(Described(Legacy, key)) == Ok(arn)
    ensures HandleLegacy(w, c, Opening(c) + (key + field))
         == GenerateAnswer(w.apc, MacRequest(arn, Static(if c == MS then Alg3 else Alg1), Hex(data)), 8, [])
  {
    hide KeyFrom, TakeFrom, DataOf, IsKey, Described, Carries, ModeFrom, Opening, GenerateReply, GenerateAnswer, Hex;
    Opened(c, key + field);
    KeyPrinted();
    assert TakeFrom(field, 0) == Ok(([], field)) by {
      TakePrinted();
      assert [] + field == field;
    }
    CarriedData(c, field, data);
    MadeReply(w, Request(c, arn, data), []);
  }

  /** MC, MM and MW have APC verify the eight digits before the data as its algorithm 1 MAC. */
  lemma CheckerRun(w: World, c: Command, key: bytes, mac: bytes, field: bytes, data: bytes, arn: bytes)
    requires c in {MC, MM, MW} && IsKey(Legacy, key) && |mac| == 8 && Carries(c, field, data)
    requires w.resolve(Described(Legacy, key)) == Ok(arn)
    ensures var req := MacRequest(arn, Static(Alg1), Hex(data));
            HandleLegacy(w, c, Opening(c) + (key + (mac + field)))
            == VerdictAnswer(w.apc.verifyMac(req, mac), [VerifyMac(req, mac)])
  {
    hide KeyFrom, TakeFrom, DataOf, IsKey, Described, Carries, ModeFrom, Opening, VerifyOutcome, VerdictAnswer, Hex;
    Opened(c, key + (mac + field));
    KeyPrinted();
    TakePrinted();
    CarriedData(c, field, data);
    var req := Request(c, arn, data);
    VerdictAnswered(w.apc.verifyMac(req, mac), [VerifyMac(req, mac)]);
  }

  /** ME and MO have APC verify them under the first key and, if they are accepted, make the MAC of the
      same data under the second. */
  lemma TranslatorRun(w: World, c: Command, first: bytes, second: bytes, mac: bytes, field: bytes, data: bytes,
                      inArn: bytes, outArn: bytes)
    requires c in {ME, MO} && IsKey(Legacy, first) && IsKey(Legacy, second) && |mac| == 8 && Carries(c, field, data)
    requires w.resolve(Described(Legacy, first)) == Ok(inArn) && w.resolve(Described(Legacy, second)) == Ok(outArn)
    ensures var inReq := MacRequest(inArn, Static(Alg1), Hex(data));
            var outReq := MacRequest(outArn, Static(Alg1), Hex(data));
            var verdict := w.apc.verifyMac(inReq, mac);
            HandleLegacy(w, c, first + (second + (mac + field))) ==
              if verdict == Accepted then GenerateAnswer(w.apc, outReq, 8, [VerifyMac(inReq, mac)])
              else VerdictAnswer(verdict, [VerifyMac(inReq, mac)])
  {
    hide IsKey, Described, Carries, DataOf, VerifyOutcome, VerdictAnswer, GenerateReply, GenerateAnswer, Hex,
         LegacyFrom;
    CarriedData(c, field, data);
    TranslatePrinted(c, first, second, mac, field);
    var inReq, outReq := Request(c, inArn, data), Request(c, outArn, data);
    MadeReply(w, outReq, [VerifyMac(inReq, mac)]);
    VerdictAnswered(w.apc.verifyMac(inReq, mac), [VerifyMac(inReq, mac)]);
  }

  lemma DataExact(c: Command, field: bytes)
    requires DataOf(c, field).Ok?
    ensures Carries(c, field, DataOf(c, field).value)
  {
    hide ParseUsize;
  }

  lemma OpenedExact(c: Command, payload: bytes)
    requires ModeFrom(c, payload).Ok?
    ensures payload == Opening(c) + ModeFrom(c, payload).value
  {
  }

  /** Every accepted payload is of that form: opening, key, the second key of a translation, the digits
      to check, the data. */
  lemma LegacyExact(c: Command, payload: bytes) returns (field: bytes)
    requires LegacyFrom(c, payload).Ok?
    ensures var f := LegacyFrom(c, payload).value;
            && IsKey(Legacy, f.key.raw) && Described(Legacy, f.key.raw) == f.key && Carries(c, field, f.data)
            && (f.target.Some? <==> c in {ME, MO})
            && (f.target.Some? ==> IsKey(Legacy, f.target.value.raw)
                                   && Described(Legacy, f.target.value.raw) == f.target.value)
            && |f.mac| == (if c in {MA, MK, MU, MQ, MS} then 0 else 8)
            && payload == Opening(c)
                 + (f.key.raw + ((if f.target.Some? then f.target.value.raw else []) + (f.mac + field)))
  {
    hide KeyFrom, TakeFrom, DataOf, IsKey, Described, Carries, ModeFrom, Opening;
    OpenedExact(c, payload);
    var rest := ModeFrom(c, payload).value;
    var (key, r1) := KeyFrom(Legacy, rest).value;
    KeyFromExact(Legacy, rest);
    var (target, r2) := TargetFrom(c, r1).value;
    if target.Some? {
      KeyFromExact(Legacy, r1);
    } else {
      assert [] + r1 == r1;
    }
    var (mac, r3) := TakeFrom(r2, if Generates(c) then 0 else MAC_HEX_LEN).value;
    field := r3;
    DataExact(c, field);
  }

  /** A command that continues another is refused: APC keeps no state between calls. */
  lemma ContinuationRefused(w: World, c: Command, payload: bytes)
    requires c in {MU, MW, MQ, MS} && (payload != [] ==> payload[0] != '0' as int)
    ensures HandleLegacy(w, c, payload) == Coded('1', '5', [], [])
  {
    ErrorCodes();
    hide ErrorCode, Code;
  }

  /** A payload that is no request is answered 15 without a call. */
  lemma LegacyMalformed(w: World, c: Command, payload: bytes)
    requires LegacyFrom(c, payload).Err?
    ensures HandleLegacy(w, c, payload) == Coded('1', '5', [], [])
  {
    ErrorCodes();
    hide ErrorCode, Code, TakeFrom, KeyFrom, ParseUsize;
  }

  /** Without a key it needs, a request is answered with the reason and makes no call, the first key
      being looked up first. */
  lemma LegacyUnresolved(w: World, c: Command, payload: bytes)
    requires LegacyFrom(c, payload).Ok?
    ensures var f, o := LegacyFrom(c, payload).value, HandleLegacy(w, c, payload);
            && (w.resolve(f.key).Err? ==> o == Failure(w.resolve(f.key).error, []))
            && (w.resolve(f.key).Ok? && f.target.Some? && w.resolve(f.target.value).Err?
                ==> o == Failure(w.resolve(f.target.value).error, []))
  {
    hide LegacyFrom, Failure;
  }
}
