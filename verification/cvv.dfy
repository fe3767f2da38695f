/** CW and CY, make and check a card verification value (src/handlers/thales/cvv.rs). */
module Cvv {
  import opened Bytes
  import opened Reader
  import opened Keys
  import opened Apc

  const PAN_DELIM: byte := 0x3B
  const PAN_MAX: nat := 19
  const CVV_LEN: nat := 3

  datatype CardFields = CardFields(cvk: KeyDescriptor, cvv: Option<bytes>, pan: bytes, expiry: bytes, service: bytes)

  /** read_pan: 1 to 19 bytes up to the first ';'. */
  function PanFrom(rest: bytes): (r: Result<(bytes, bytes)>)
    ensures r.Err? ==> r.error == MalformedPayload
  {
    var pan := UpTo(rest, PAN_DELIM);
    if PAN_DELIM !in rest || pan == [] || |pan| > PAN_MAX then Err(MalformedPayload)
    else Ok((pan, rest[|pan| + 1..]))
  }

  function CvvFrom(check: bool, rest: bytes): (r: Result<(Option<bytes>, bytes)>)
    ensures r.Err? ==> r.error == MalformedPayload
  {
    if !check then Ok((None, rest))
    else
      var (cvv, rest) :- TakeFrom(rest, CVV_LEN);
      Ok((Some(cvv), rest))
  }

  /** parse_cw, or parse_cy when `check`. */
  function CardFrom(check: bool, payload: bytes): (r: Result<(CardFields, bytes)>)
    ensures r.Err? ==> r.error == MalformedPayload
  {
    var (cvk, rest) :- KeyFrom(Key32, payload);
    var (cvv, rest) :- CvvFrom(check, rest);
    var (pan, rest) :- PanFrom(rest);
    var (expiry, rest) :- TakeFrom(rest, 4);
    var (service, rest) :- TakeFrom(rest, 3);
    Ok((CardFields(cvk, cvv, pan, expiry, service), rest))
  }

  // ------------------------------------------------------- printed requests

  datatype CardWire = CardWire(cvk: bytes, cvv: Option<bytes>, pan: bytes, expiry: bytes, service: bytes) {
    predicate Printable() {
      && IsKey(Key32, cvk) && (cvv.Some? ==> |cvv.value| == 3)
      && 1 <= |pan| <= 19 && ';' as int !in pan && |expiry| == 4 && |service| == 3
    }

    function PrintCard(tail: bytes): bytes {
      pan + ([';' as int] + (expiry + (service + tail)))
    }

    function Print(tail: bytes): bytes {
      cvk + ((if cvv.Some? then cvv.value else []) + PrintCard(tail))
    }

    function Meaning(): CardFields
      requires Printable()
    {
      CardFields(Described(Key32, cvk), cvv, pan, expiry, service)
    }
  }

  lemma PanPrinted(pan: bytes, tail: bytes)
    requires 1 <= |pan| <= PAN_MAX && PAN_DELIM !in pan
    ensures PanFrom(pan + ([PAN_DELIM] + tail)) == Ok((pan, tail))
  {
    var p := pan + ([PAN_DELIM] + tail);
    UpToPrinted(pan, PAN_DELIM, tail);
    assert p[|pan|] == PAN_DELIM;
    assert p[|pan| + 1..] == tail;
  }

  lemma PanExact(rest: bytes)
    requires PanFrom(rest).Ok?
    ensures var (pan, tail) := PanFrom(rest).value;
            1 <= |pan| <= PAN_MAX && PAN_DELIM !in pan && rest == pan + ([PAN_DELIM] + tail)
  {
  }

  /** Parsing a printed CW or CY request gives its fields, whatever follows it. */
  lemma CardRoundTrip(w: CardWire, tail: bytes)
    requires w.Printable()
    ensures CardFrom(w.cvv.Some?, w.Print(tail)) == Ok((w.Meaning(), tail))
  {
    hide TakeFrom, KeyFrom, PanFrom, IsKey, Described;
    TakePrinted();
    KeyPrinted();
    PanPrinted(w.pan, w.expiry + (w.service + tail));
    assert w.cvv.None? ==> [] + w.PrintCard(tail) == w.PrintCard(tail);
  }

  /** Conversely every accepted payload is a printed request. */
  lemma CardExact(check: bool, payload: bytes) returns (w: CardWire, tail: bytes)
    requires CardFrom(check, payload).Ok?
    ensures w.cvv.Some? == check && w.Printable() && payload == w.Print(tail)
    ensures CardFrom(check, payload).value == (w.Meaning(), tail)
  {
    hide TakeFrom, KeyFrom, PanFrom, IsKey, Described;
    var (cvk, r1) := KeyFrom(Key32, payload).value;
    KeyFromExact(Key32, payload);
    var (cvv, r2) := CvvFrom(check, r1).value;
    var (pan, r3) := PanFrom(r2).value;
    PanExact(r2);
    var (expiry, r4) := TakeFrom(r3, 4).value;
    var (service, r5) := TakeFrom(r4, 3).value;
    tail := r5;
    w := CardWire(cvk.raw, cvv, pan, expiry, service);
    assert cvv.None? ==> [] + r2 == r2;
  }

  // --------------------------------------------------------------- handlers

  function Request(arn: bytes, f: CardFields): CardRequest {
    CardRequest(arn, f.pan, f.expiry, f.service)
  }

  /** A CW request carries no value and gets one made; a CY request has its value checked. */
  function RunCard(w: World, f: CardFields): (o: Outcome)
    ensures o.Done?
  {
    match w.resolve(f.cvk)
    case Err(e) => Failure(e, [])
    case Ok(arn) =>
      var req := Request(arn, f);
      match f.cvv
      case Some(cvv) => VerifyOutcome(w.apc.verifyCard(req, cvv), [VerifyCard(req, cvv)])
      case None =>
        match w.apc.generateCard(req)
        case None => Failure(ApcError, [GenerateCard(req)])
        case Some(value) => Success(value, [GenerateCard(req)])
  }

  /** CY when `check`, else CW. */
  function HandleCard(w: World, check: bool, payload: bytes): (o: Outcome)
    ensures o.Done?
  {
    match CardFrom(check, payload)
    case Err(e) => Failure(e, [])
    case Ok((f, _)) => RunCard(w, f)
  }

  /** APC's card service: a value has three digits, and is the only one that verifies. */
  ghost predicate CardContract(apc: Client) {
    && (forall req :: apc.generateCard(req).Some? ==> |apc.generateCard(req).value| == CVV_LEN)
    && (forall req, value :: apc.verifyCard(req, value) == Accepted <==> apc.generateCard(req) == Some(value))
  }

  lemma RunVerifies(w: World, f: CardFields, value: bytes)
    requires CardContract(w.apc) && f.cvv.None? && Succeeded(RunCard(w, f))
    ensures |RunCard(w, f).reply.payload| == CVV_LEN
    ensures Succeeded(RunCard(w, f.(cvv := Some(value)))) <==> value == RunCard(w, f).reply.payload
  {
    if w.resolve(f.cvk).Err? {
      NoErrorIsSuccess(w.resolve(f.cvk).error);
    }
    NoErrorIsSuccess(ApcError);
    NoErrorIsSuccess(VerificationFailed);
  }

  /** The payload of a CW request as a CY request: the value goes between key and PAN. */
  lemma Inserted(payload: bytes, value: bytes) returns (k: nat)
    requires CardFrom(false, payload).Ok? && |value| == CVV_LEN
    ensures k <= |payload| && IsKey(Key32, payload[..k])
    ensures CardFrom(false, payload).value.0.cvv.None?
    ensures CardFrom(true, payload[..k] + (value + payload[k..]))
         == Ok((CardFrom(false, payload).value.0.(cvv := Some(value)), CardFrom(false, payload).value.1))
  {
    var wire, tail := CardExact(false, payload);
    var checked := wire.(cvv := Some(value));
    k := |wire.cvk|;
    assert [] + wire.PrintCard(tail) == wire.PrintCard(tail);
    assert payload[..k] == wire.cvk && payload[k..] == wire.PrintCard(tail);
    CardRoundTrip(checked, tail);
    hide CardFrom, CardWire.PrintCard, Described, IsKey;
    assert payload[..k] + (value + payload[k..]) == checked.Print(tail);
  }

  /** For any three bytes put between the key and the PAN of a CW request that was answered 00, CY
      answers 00 if and only if they are CW's reply. */
  lemma ValueVerifies(w: World, payload: bytes, value: bytes) returns (k: nat)
    requires CardContract(w.apc) && Succeeded(HandleCard(w, false, payload)) && |value| == CVV_LEN
    ensures k <= |payload| && IsKey(Key32, payload[..k])
    ensures |HandleCard(w, false, payload).reply.payload| == CVV_LEN
    ensures Succeeded(HandleCard(w, true, payload[..k] + (value + payload[k..])))
       <==> value == HandleCard(w, false, payload).reply.payload
  {
    NoErrorIsSuccess(MalformedPayload);
    k := Inserted(payload, value);
    RunVerifies(w, CardFrom(false, payload).value.0, value);
    hide CardFrom, RunCard, IsKey;
  }

  // ------------------------------------------- from the wire to APC and back

  /** CW has APC make the value of the card on the wire and answers with it as it is; CY has it verify
      the three digits after the key against that same card. */
  lemma CardRun(w: World, wire: CardWire, tail: bytes, arn: bytes)
    requires wire.Printable() && w.resolve(Described(Key32, wire.cvk)) == Ok(arn)
    ensures var card := CardRequest(arn, wire.pan, wire.expiry, wire.service);
            HandleCard(w, wire.cvv.Some?, wire.Print(tail)) ==
              match wire.cvv
              case Some(value) => VerdictAnswer(w.apc.verifyCard(card, value), [VerifyCard(card, value)])
              case None =>
                match w.apc.generateCard(card)
                case None => Coded('4', '1', [], [GenerateCard(card)])
                case Some(value) => Coded('0', '0', value, [GenerateCard(card)])
  {
    ErrorCodes();
    hide CardFrom, CardWire.Print, IsKey, Described, ErrorCode, Code, VerdictAnswer, VerifyOutcome;
    CardRoundTrip(wire, tail);
    var card := CardRequest(arn, wire.pan, wire.expiry, wire.service);
    if wire.cvv.Some? {
      VerdictAnswered(w.apc.verifyCard(card, wire.cvv.value), [VerifyCard(card, wire.cvv.value)]);
    }
  }

  lemma CardUnresolved(w: World, wire: CardWire, tail: bytes)
    requires wire.Printable() && w.resolve(Described(Key32, wire.cvk)).Err?
    ensures HandleCard(w, wire.cvv.Some?, wire.Print(tail))
         == Failure(w.resolve(Described(Key32, wire.cvk)).error, [])
  {
    hide CardFrom, CardWire.Print, IsKey, Described, Failure;
    CardRoundTrip(wire, tail);
  }

  /** A payload that is no request is answered 15 without a call. */
  lemma CardMalformed(w: World, check: bool, payload: bytes)
    requires CardFrom(check, payload).Err?
    ensures HandleCard(w, check, payload) == Coded('1', '5', [], [])
  {
    ErrorCodes();
    hide ErrorCode, Code, CardFrom;
  }
}
