/** DU and CU: verify the current PIN, then make the offset or PVV of a new one
    (src/handlers/thales/pin_change.rs). */
module PinChange {
  import opened Bytes
  import opened Reader
  import opened Keys
  import opened Apc
  import Connection

  /** `datum` is the offset (DU) or PVV (CU) of the current PIN, as it stands on the wire. */
  datatype ChangeFields = ChangeFields(
    enc: KeyDescriptor, pvk: KeyDescriptor, current: bytes, format: bytes, account: bytes,
    scheme: PinMethod, datum: bytes, next: bytes)

  const FILL: byte := 0x46

  /** `trim_end_matches('F')` */
  function TrimFill(s: bytes): (r: bytes)
    ensures r <= s && (r != [] ==> r[|r| - 1] != FILL)
  {
    if s != [] && s[|s| - 1] == FILL then TrimFill(s[..|s| - 1]) else s
  }

  /** `format!("{offset:F<12}")` */
  function PadFill(s: bytes): (r: bytes)
    ensures s <= r && |r| == if |s| < 12 then 12 else |s|
    decreases 12 - |s|
  {
    if |s| < 12 then PadFill(s + [FILL]) else s
  }

  lemma {:induction false} TrimPadded(s: bytes)
    ensures TrimFill(PadFill(s)) == TrimFill(s)
    decreases 12 - |s|
  {
    if |s| < 12 {
      TrimPadded(s + [FILL]);
      assert (s + [FILL])[..|s|] == s;
    }
  }

  /** Trimming gives back the offset that was padded if and only if it does not itself end in 'F',
      which no offset of digits does. */
  lemma TrimUndoesPad(s: bytes)
    ensures TrimFill(PadFill(s)) == s <==> (s == [] || s[|s| - 1] != FILL)
  {
    TrimPadded(s);
  }

  /** map_pin_block_format */
  function FormatOf(code: bytes): (r: Result<PinFormat>)
    ensures r.Err? ==> r.error == UnsupportedPinFormat
  {
    if code == [0x30, 0x31] then Ok(IsoFormat0)
    else if code == [0x30, 0x35] then Ok(IsoFormat1)
    else if code == [0x34, 0x37] then Ok(IsoFormat3)
    else if code == [0x34, 0x38] then Ok(IsoFormat4)
    else Err(UnsupportedPinFormat)
  }

  function IbmFrom(rest: bytes): Result<(PinMethod, bytes)> {
    var (decimalization, rest) :- TakeFrom(rest, 16);
    var (validation, rest) :- TakeFrom(rest, 12);
    Ok((Ibm(decimalization, validation), rest))
  }

  /** The key index: one character that must be a digit, since a sign alone is no number. */
  function PvkiFrom(rest: bytes): Result<(PinMethod, bytes)> {
    var (text, rest) :- TakeFrom(rest, 1);
    match ParseUsize(text, 10)
    case None => Err(MalformedPayload)
    case Some(index) => Ok((VisaPvv(index), rest))
  }

  /** The fields DU and CU have in common, all before the method's own. */
  datatype ChangeHead = ChangeHead(
    enc: KeyDescriptor, pvk: KeyDescriptor, current: bytes, format: bytes, account: bytes)

  function PvkKind(du: bool): KeyKind {
    if du then Legacy else Key32
  }

  function HeadFrom(du: bool, payload: bytes): Result<(ChangeHead, bytes)> {
    var (enc, rest) :- KeyFrom(Legacy, payload);
    var (pvk, rest) :- KeyFrom(PvkKind(du), rest);
    var (_, rest) :- TakeFrom(rest, 4);
    var (current, rest) :- TakeFrom(rest, 16);
    var (format, rest) :- TakeFrom(rest, 2);
    var (account, rest) :- TakeFrom(rest, 12);
    Ok((ChangeHead(enc, pvk, current, format, account), rest))
  }

  /** DU when `du`, else CU. */
  function ChangeFrom(du: bool, payload: bytes): Result<(ChangeFields, bytes)> {
    var (h, rest) :- HeadFrom(du, payload);
    var (scheme, rest) :- if du then IbmFrom(rest) else PvkiFrom(rest);
    var (datum, rest) :- TakeFrom(rest, if du then 12 else 4);
    var (next, rest) :- TakeFrom(rest, 16);
    Ok((ChangeFields(h.enc, h.pvk, h.current, h.format, h.account, scheme, datum, next), rest))
  }

  method ReadHead(c: FieldReader, du: bool) returns (r: Result<ChangeHead>)
    requires c.Valid()
    modifies c`pos
    ensures c.Valid() && r == Value(HeadFrom(du, old(c.Rest())))
    ensures r.Ok? ==> c.Rest() == HeadFrom(du, old(c.Rest())).value.1
  {
    hide TakeFrom, KeyFrom, FieldReader.Rest, FieldReader.Valid;
    var enc :- ReadKey(c, Legacy);
    var pvk :- ReadKey(c, PvkKind(du));
    var lengths :- c.Take(4);
    var current :- c.Take(16);
    var format :- c.Take(2);
    var account :- c.Take(12);
    r := Ok(ChangeHead(enc, pvk, current, format, account));
  }

  method ParseDu(payload: bytes) returns (r: Result<ChangeFields>)
    ensures r == Value(ChangeFrom(true, payload))
  {
    hide TakeFrom, HeadFrom, FieldReader.Rest, FieldReader.Valid;
    var c := new FieldReader(payload);
    var h :- ReadHead(c, true);
    var decimalization :- c.Take(16);
    var validation :- c.Take(12);
    var offset :- c.Take(12);
    var next :- c.Take(16);
    r := Ok(ChangeFields(h.enc, h.pvk, h.current, h.format, h.account, Ibm(decimalization, validation), offset, next));
  }

  method ParseCu(payload: bytes) returns (r: Result<ChangeFields>)
    ensures r == Value(ChangeFrom(false, payload))
  {
    hide TakeFrom, HeadFrom, ParseUsize, FieldReader.Rest, FieldReader.Valid;
    var c := new FieldReader(payload);
    var h :- ReadHead(c, false);
    var text :- c.Take(1);
    var index := ParseUsize(text, 10);
    if index.None? {
      return Err(MalformedPayload);
    }
    var pvv :- c.Take(4);
    var next :- c.Take(16);
    r := Ok(ChangeFields(h.enc, h.pvk, h.current, h.format, h.account, VisaPvv(index.value), pvv, next));
  }

  // --------------------------------------------------------------- handlers

  /** What is sent as the reference value: IBM offsets without their filling. */
  function Reference(f: ChangeFields): bytes {
    if f.scheme.Ibm? then TrimFill(f.datum) else f.datum
  }

  /** What is answered: the datum of the method asked for, offsets filled to twelve characters. */
  function ReplyDatum(scheme: PinMethod, made: PinData): Option<bytes> {
    match (scheme, made)
    case (Ibm(_, _), Offset(digits)) => Some(PadFill(digits))
    case (VisaPvv(_), Pvv(digits)) => Some(digits)
    case _ => None
  }

  /** The current and the new PIN, located by the same keys, account and format. */
  datatype Change = Change(current: PinBlock, next: PinBlock, scheme: PinMethod, reference: bytes)

  function ChangeOf(w: World, f: ChangeFields): Result<Change> {
    var encArn :- w.resolve(f.enc);
    var pvkArn :- w.resolve(f.pvk);
    var format :- FormatOf(f.format);
    Ok(Change(PinBlock(encArn, pvkArn, f.current, f.account, format),
              PinBlock(encArn, pvkArn, f.next, f.account, format), f.scheme, Reference(f)))
  }

  function VerifyThenGenerate(apc: Client, c: Change): (o: Outcome)
    ensures o.Done?
  {
    var verify := VerifyPin(c.current, c.scheme, c.reference);
    var verdict := apc.verifyPin(c.current, c.scheme, c.reference);
    if verdict != Accepted then VerifyOutcome(verdict, [verify])
    else
      var calls := [verify, GeneratePin(c.next, c.scheme)];
      match apc.generatePin(c.next, c.scheme)
      case None => Failure(ApcError, calls)
      case Some(made) =>
        match ReplyDatum(c.scheme, made)
        case None => Failure(ApcError, calls)
        case Some(datum) => Success(datum, calls)
  }

  function HandleChange(w: World, du: bool, payload: bytes): (o: Outcome)
    ensures o.Done?
  {
    match ChangeFrom(du, payload)
    case Err(e) => Failure(e, [])
    case Ok((f, _)) => HandleParsed(w, f)
  }

  function HandleParsed(w: World, f: ChangeFields): (o: Outcome)
    ensures o.Done?
  {
    match ChangeOf(w, f)
    case Err(e) => Failure(e, [])
    case Ok(change) => VerifyThenGenerate(w.apc, change)
  }

  /** In every DU and CU run the new datum is asked for, by the second and last call, exactly when
      the current PIN was accepted; a mismatch is answered 01 and nothing more. */
  lemma VerifiesBeforeGenerating(w: World, du: bool, payload: bytes)
    requires HandleChange(w, du, payload).calls != []
    ensures ChangeFrom(du, payload).Ok? && ChangeOf(w, ChangeFrom(du, payload).value.0).Ok?
    ensures var Change(current, next, scheme, reference) := ChangeOf(w, ChangeFrom(du, payload).value.0).value;
            var Done(reply, calls) := HandleChange(w, du, payload);
            var verdict := w.apc.verifyPin(current, scheme, reference);
            && calls[0] == VerifyPin(current, scheme, reference)
            && (if verdict == Accepted then calls[1..] == [GeneratePin(next, scheme)] else |calls| == 1)
            && (verdict == Mismatch ==> reply == Connection.Reply([0x30, 0x31], []))
            && (reply.error == SUCCESS ==> verdict == Accepted)
            && (reply.error != SUCCESS ==> reply.payload == [])
  {
    hide ChangeFrom, ChangeOf;
    NoErrorIsSuccess(ApcError);
    NoErrorIsSuccess(VerificationFailed);
  }

  // ------------------------------------------------------- printed requests

  datatype Selector = IbmTable(decimalization: bytes, validation: bytes) | KeyIndex(index: nat) {
    predicate Printable() {
      match this
      case IbmTable(d, v) => |d| == 16 && |v| == 12
      case KeyIndex(i) => i < 10
    }

    function Print(tail: bytes): bytes
      requires Printable()
    {
      match this
      case IbmTable(d, v) => d + (v + tail)
      case KeyIndex(i) => [Digit(i)] + tail
    }

    function Meaning(): PinMethod {
      match this
      case IbmTable(d, v) => Ibm(d, v)
      case KeyIndex(i) => VisaPvv(i)
    }
  }

  datatype ChangeWire = ChangeWire(
    enc: bytes, pvk: bytes, lengths: bytes, current: bytes, format: bytes, account: bytes,
    selector: Selector, datum: bytes, next: bytes)
  {
    predicate Du() {
      selector.IbmTable?
    }

    predicate Printable() {
      && IsKey(Legacy, enc) && IsKey(if Du() then Legacy else Key32, pvk)
      && |lengths| == 4 && |current| == 16 && |format| == 2
      && |account| == 12 && selector.Printable() && |datum| == (if Du() then 12 else 4) && |next| == 16
    }

    function Print(tail: bytes): bytes
      requires selector.Printable()
    {
      enc + (pvk + (lengths + (current + (format + (account + selector.Print(datum + (next + tail)))))))
    }

    function Meaning(): ChangeFields
      requires Printable()
    {
      ChangeFields(Described(Legacy, enc), Described(if Du() then Legacy else Key32, pvk), current, format, account,
                   selector.Meaning(), datum, next)
    }
  }

  lemma SelectorPrinted(s: Selector, tail: bytes)
    requires s.Printable()
    ensures (if s.IbmTable? then IbmFrom(s.Print(tail)) else PvkiFrom(s.Print(tail))) == Ok((s.Meaning(), tail))
  {
    hide TakeFrom;
    TakePrinted();
    if s.KeyIndex? {
      var text := [Digit(s.index)];
      assert DigitsValue(text[..0], 10) == Some(0);
      assert TakeFrom(text + tail, 1) == Ok((text, tail));
    }
  }

  /** Parsing a printed DU or CU request gives its fields, whatever follows it. */
  lemma ChangeRoundTrip(w: ChangeWire, tail: bytes)
    requires w.Printable()
    ensures ChangeFrom(w.Du(), w.Print(tail)) == Ok((w.Meaning(), tail))
  {
    hide TakeFrom, KeyFrom, IsKey, Described, IbmFrom, PvkiFrom, Selector.Print, Selector.Printable, Selector.Meaning;
    TakePrinted();
    KeyPrinted();
    SelectorPrinted(w.selector, w.datum + (w.next + tail));
  }

  lemma SelectorExact(du: bool, rest: bytes) returns (s: Selector)
    requires if du then IbmFrom(rest).Ok? else PvkiFrom(rest).Ok?
    ensures s.IbmTable? == du && s.Printable()
    ensures var (scheme, tail) := (if du then IbmFrom(rest) else PvkiFrom(rest)).value;
            rest == s.Print(tail) && scheme == s.Meaning()
  {
    if du {
      var (d, r1) := TakeFrom(rest, 16).value;
      var (v, r2) := TakeFrom(r1, 12).value;
      s := IbmTable(d, v);
    } else {
      var (text, tail) := TakeFrom(rest, 1).value;
      assert text == [text[0]] && text[..0] == [];
      assert text[0] != 0x2B;
      assert DigitsValue(text[..0], 10) == Some(0);
      assert ParseUsize(text, 10) == DigitsValue(text, 10) == DigitValue(text[0], 10);
      s := KeyIndex(ParseUsize(text, 10).value);
    }
  }

  /** Conversely every accepted payload is a printed request. */
  lemma ChangeExact(du: bool, payload: bytes) returns (w: ChangeWire, tail: bytes)
    requires ChangeFrom(du, payload).Ok?
    ensures w.Du() == du && w.Printable() && payload == w.Print(tail)
    ensures ChangeFrom(du, payload).value == (w.Meaning(), tail)
  {
    hide TakeFrom, KeyFrom, IsKey, Described, IbmFrom, PvkiFrom, Selector.Print, Selector.Printable, Selector.Meaning;
    var (enc, r1) := KeyFrom(Legacy, payload).value;
    KeyFromExact(Legacy, payload);
    var (pvk, r2) := KeyFrom(PvkKind(du), r1).value;
    KeyFromExact(PvkKind(du), r1);
    var (lengths, r3) := TakeFrom(r2, 4).value;
    var (current, r4) := TakeFrom(r3, 16).value;
    var (format, r5) := TakeFrom(r4, 2).value;
    var (account, r6) := TakeFrom(r5, 12).value;
    var selector := SelectorExact(du, r6);
    var (_, r7) := (if du then IbmFrom(r6) else PvkiFrom(r6)).value;
    var (datum, r8) := TakeFrom(r7, if du then 12 else 4).value;
    var (next, r9) := TakeFrom(r8, 16).value;
    tail := r9;
    w := ChangeWire(enc.raw, pvk.raw, lengths, current, format, account, selector, datum, next);
  }

  // --------------------------------------------------- PINs changed in turn

  /** APC's PIN service: offsets have 1 to 12 digits and PVVs four, and what is generated for a PIN
      verifies that PIN. */
  ghost predicate PinContract(apc: Client) {
    && (forall pin, scheme :: apc.generatePin(pin, scheme).Some? && apc.generatePin(pin, scheme).value.Offset? ==>
          var digits := apc.generatePin(pin, scheme).value.digits;
          && 1 <= |digits| <= 12 && AllDigits(digits)
          && apc.verifyPin(pin, scheme, digits) == Accepted)
    && (forall pin, scheme :: apc.generatePin(pin, scheme).Some? && apc.generatePin(pin, scheme).value.Pvv? ==>
          var digits := apc.generatePin(pin, scheme).value.digits;
          |digits| == 4 && apc.verifyPin(pin, scheme, digits) == Accepted)
  }

  predicate AllDigits(s: bytes) {
    forall i | 0 <= i < |s| :: 0x30 <= s[i] <= 0x39
  }

  /** The request that goes on from an answered one: the PIN and datum that were new are current. */
  function Following(wire: ChangeWire, reply: bytes, next: bytes): ChangeWire {
    wire.(current := wire.next, datum := reply, next := next)
  }

  /** A request, and after every 00 the one that follows it with the next new PIN block. */
  function Run(w: World, wire: ChangeWire, nexts: seq<bytes>): seq<Outcome>
    requires wire.selector.Printable()
    decreases |nexts|
  {
    var o := HandleChange(w, wire.Du(), wire.Print([]));
    if nexts == [] || !Succeeded(o) then [o]
    else [o] + Run(w, Following(wire, o.reply.payload, nexts[0]), nexts[1..])
  }

  /** The run asked APC for new data, so it had accepted the current PIN. */
  predicate Verified(o: Outcome) {
    o.Done? && |o.calls| == 2 && o.calls[1].GeneratePin?
  }

  lemma ReplyVerifies(apc: Client, scheme: PinMethod, pin: PinBlock, made: PinData)
    requires PinContract(apc) && apc.generatePin(pin, scheme) == Some(made) && ReplyDatum(scheme, made).Some?
    ensures var datum := ReplyDatum(scheme, made).value;
            && |datum| == (if scheme.Ibm? then 12 else 4)
            && apc.verifyPin(pin, scheme, if scheme.Ibm? then TrimFill(datum) else datum) == Accepted
  {
    if scheme.Ibm? {
      TrimUndoesPad(made.digits);
    }
  }

  lemma AcceptedRun(apc: Client, c: Change)
    ensures Verified(VerifyThenGenerate(apc, c)) <==> apc.verifyPin(c.current, c.scheme, c.reference) == Accepted
    ensures Succeeded(VerifyThenGenerate(apc, c)) ==>
              && apc.generatePin(c.next, c.scheme).Some?
              && ReplyDatum(c.scheme, apc.generatePin(c.next, c.scheme).value)
                 == Some(VerifyThenGenerate(apc, c).reply.payload)
  {
    hide ReplyDatum;
    NoErrorIsSuccess(ApcError);
    NoErrorIsSuccess(VerificationFailed);
  }

  lemma FollowingFields(w: World, f: ChangeFields, next: bytes)
    requires PinContract(w.apc) && Succeeded(HandleParsed(w, f))
    ensures var datum := HandleParsed(w, f).reply.payload;
            && |datum| == (if f.scheme.Ibm? then 12 else 4)
            && Verified(HandleParsed(w, f.(current := f.next, datum := datum, next := next)))
  {
    if ChangeOf(w, f).Err? {
      NoErrorIsSuccess(ChangeOf(w, f).error);
    }
    var c := ChangeOf(w, f).value;
    hide VerifyThenGenerate, TrimFill, PadFill, PinContract, ReplyDatum, FormatOf, Verified;
    AcceptedRun(w.apc, c);
    var datum := HandleParsed(w, f).reply.payload;
    ReplyVerifies(w.apc, c.scheme, c.next, w.apc.generatePin(c.next, c.scheme).value);
    AcceptedRun(w.apc, ChangeOf(w, f.(current := f.next, datum := datum, next := next)).value);
  }

  lemma FollowingVerifies(w: World, wire: ChangeWire, next: bytes)
    requires PinContract(w.apc) && wire.Printable() && |next| == 16
    requires Succeeded(HandleChange(w, wire.Du(), wire.Print([])))
    ensures var after := Following(wire, HandleChange(w, wire.Du(), wire.Print([])).reply.payload, next);
            after.Printable() && after.Du() == wire.Du() && Verified(HandleChange(w, after.Du(), after.Print([])))
  {
    hide ChangeFrom, ChangeWire.Print, Described, IsKey, HandleParsed, PinContract, Selector.Printable, Verified;
    ChangeRoundTrip(wire, []);
    FollowingFields(w, wire.Meaning(), next);
    var after := Following(wire, HandleChange(w, wire.Du(), wire.Print([])).reply.payload, next);
    ChangeRoundTrip(after, []);
  }

  /** As many outcomes as PIN blocks, unless the last one was not answered 00. */
  predicate RunsOut(outcomes: seq<Outcome>, nexts: nat) {
    && 0 < |outcomes| <= nexts + 1
    && (|outcomes| <= nexts ==> !Succeeded(outcomes[|outcomes| - 1]))
  }

  lemma RunsOutStep(o: Outcome, rest: seq<Outcome>, nexts: nat)
    requires RunsOut(rest, nexts)
    ensures RunsOut([o] + rest, nexts + 1)
  {
    hide Succeeded;
  }

  /** A series stops short only after a run that was not answered 00. */
  lemma {:induction false} StopsOnlyOnError(w: World, wire: ChangeWire, nexts: seq<bytes>)
    requires wire.selector.Printable()
    ensures RunsOut(Run(w, wire, nexts), |nexts|)
    decreases |nexts|
  {
    hide HandleChange, ChangeWire.Print;
    var o := HandleChange(w, wire.Du(), wire.Print([]));
    if nexts != [] && Succeeded(o) {
      var after := Following(wire, o.reply.payload, nexts[0]);
      StopsOnlyOnError(w, after, nexts[1..]);
      RunsOutStep(o, Run(w, after, nexts[1..]), |nexts| - 1);
    }
  }

  predicate AllVerified(outcomes: seq<Outcome>) {
    forall i | 0 <= i < |outcomes| :: Verified(outcomes[i])
  }

  lemma AllVerifiedStep(o: Outcome, rest: seq<Outcome>)
    requires Verified(o) && AllVerified(rest)
    ensures AllVerified([o]) && AllVerified([o] + rest)
  {
    hide Verified;
  }

  /** However long a customer goes on changing the PIN, each time presenting the PIN and the
      offset or PVV that the last answer made current, every one of the runs verifies; it is only a
      refusal to generate that can end the series. */
  lemma {:induction false} EveryRunVerifies(w: World, wire: ChangeWire, nexts: seq<bytes>)
    requires PinContract(w.apc) && wire.Printable() && (forall i | 0 <= i < |nexts| :: |nexts[i]| == 16)
    requires Verified(HandleChange(w, wire.Du(), wire.Print([])))
    ensures AllVerified(Run(w, wire, nexts))
    decreases |nexts|
  {
    var o := HandleChange(w, wire.Du(), wire.Print([]));
    AllVerifiedStep(o, []);
    hide HandleChange, ChangeWire.Print, PinContract;
    if nexts != [] && Succeeded(o) {
      FollowingVerifies(w, wire, nexts[0]);
      var after := Following(wire, o.reply.payload, nexts[0]);
      EveryRunVerifies(w, after, nexts[1..]);
      AllVerifiedStep(o, Run(w, after, nexts[1..]));
    }
  }

  // ------------------------------------------- from the wire to APC and back

  /** The PIN block formats by their two-digit codes, and no others. */
  lemma Formats(code: bytes)
    ensures FormatOf(code) ==
              if code == Code('0', '1') then Ok(IsoFormat0)
              else if code == Code('0', '5') then Ok(IsoFormat1)
              else if code == Code('4', '7') then Ok(IsoFormat3)
              else if code == Code('4', '8') then Ok(IsoFormat4)
              else Err(UnsupportedPinFormat)
  {
  }

  /** `digits`, then as many 'F' as make it twelve characters. */
  predicate Filled(digits: bytes, r: bytes) {
    && digits <= r && |r| == (if |digits| < 12 then 12 else |digits|)
    && forall i | |digits| <= i < |r| :: r[i] == 'F' as int
  }

  lemma {:induction false} PadFills(s: bytes)
    ensures Filled(s, PadFill(s))
    decreases 12 - |s|
  {
    if |s| < 12 {
      PadFills(s + [FILL]);
      assert (s + [FILL])[|s|] == 'F' as int;
      assert s + [FILL] <= PadFill(s);
    }
  }

  /** `digits` without the 'F's it ends in. */
  predicate Bare(digits: bytes, r: bytes) {
    && r <= digits && (forall i | |r| <= i < |digits| :: digits[i] == 'F' as int)
    && (r != [] ==> r[|r| - 1] != 'F' as int)
  }

  lemma {:induction false} TrimBares(s: bytes)
    ensures Bare(s, TrimFill(s))
  {
    if s != [] && s[|s| - 1] == FILL {
      TrimBares(s[..|s| - 1]);
    }
  }

  /** What DU and CU do with the fields of a request, its keys and its format being known: the PIN block
      that is current is verified against its offset or PVV, and only then a new one is made for the
      block that is next; both are PINs under the same two keys, of the same account and format. */
  ghost predicate ChangeAnswer(apc: Client, wire: ChangeWire, encArn: bytes, pvkArn: bytes, format: PinFormat,
                               o: Outcome)
  {
    var current := PinBlock(encArn, pvkArn, wire.current, wire.account, format);
    var next := PinBlock(encArn, pvkArn, wire.next, wire.account, format);
    exists reference :: Checks(apc, wire, current, next, reference, o)
  }

  ghost predicate Checks(apc: Client, wire: ChangeWire, current: PinBlock, next: PinBlock, reference: bytes,
                         o: Outcome)
  {
    match wire.selector
    case IbmTable(table, validation) =>
      var scheme := Ibm(table, validation);
      var verify := VerifyPin(current, scheme, reference);
      && Bare(wire.datum, reference)
      && if apc.verifyPin(current, scheme, reference) != Accepted then
           o == VerdictAnswer(apc.verifyPin(current, scheme, reference), [verify])
         else
           (match apc.generatePin(next, scheme)
            case Some(Offset(digits)) =>
              && o.Done? && o.reply.error == Code('0', '0') && Filled(digits, o.reply.payload)
              && o.calls == [verify, GeneratePin(next, scheme)]
            case _ => o == Coded('4', '1', [], [verify, GeneratePin(next, scheme)]))
    case KeyIndex(index) =>
      var scheme := VisaPvv(index);
      var verify := VerifyPin(current, scheme, wire.datum);
      if apc.verifyPin(current, scheme, wire.datum) != Accepted then
        o == VerdictAnswer(apc.verifyPin(current, scheme, wire.datum), [verify])
      else
        match apc.generatePin(next, scheme)
        case Some(Pvv(digits)) => o == Coded('0', '0', digits, [verify, GeneratePin(next, scheme)])
        case _ => o == Coded('4', '1', [], [verify, GeneratePin(next, scheme)])
  }

  lemma RunChecks(apc: Client, wire: ChangeWire, current: PinBlock, next: PinBlock)
    requires wire.Printable()
    ensures var reference := if wire.Du() then TrimFill(wire.datum) else wire.datum;
            Checks(apc, wire, current, next, reference,
                   VerifyThenGenerate(apc, Change(current, next, wire.selector.Meaning(), reference)))
  {
    var reference := if wire.Du() then TrimFill(wire.datum) else wire.datum;
    var scheme := wire.selector.Meaning();
    ErrorCodes();
    TrimBares(wire.datum);
    VerdictAnswered(apc.verifyPin(current, scheme, reference), [VerifyPin(current, scheme, reference)]);
    if apc.generatePin(next, scheme).Some? && apc.generatePin(next, scheme).value.Offset? {
      PadFills(apc.generatePin(next, scheme).value.digits);
    }
    hide ErrorCode, Code, Bare, Filled, TrimFill, PadFill, VerifyOutcome, VerdictAnswer, IsKey, ChangeWire.Printable;
  }

  lemma ChangeRun(w: World, wire: ChangeWire, tail: bytes, encArn: bytes, pvkArn: bytes)
    requires wire.Printable() && FormatOf(wire.format).Ok?
    requires w.resolve(Described(Legacy, wire.enc)) == Ok(encArn)
    requires w.resolve(Described(if wire.Du() then Legacy else Key32, wire.pvk)) == Ok(pvkArn)
    ensures ChangeAnswer(w.apc, wire, encArn, pvkArn, FormatOf(wire.format).value,
                         HandleChange(w, wire.Du(), wire.Print(tail)))
  {
    hide ChangeFrom, ChangeWire.Print, IsKey, Described, Checks, VerifyThenGenerate, TrimFill, FormatOf,
         Selector.Printable, Selector.Meaning;
    ChangeRoundTrip(wire, tail);
    var format := FormatOf(wire.format).value;
    var current := PinBlock(encArn, pvkArn, wire.current, wire.account, format);
    var next := PinBlock(encArn, pvkArn, wire.next, wire.account, format);
    SelectorKind(wire.selector);
    RunChecks(w.apc, wire, current, next);
  }

  lemma SelectorKind(s: Selector)
    ensures s.Meaning().Ibm? <==> s.IbmTable?
  {
  }

  /** What stops a request before any call, in the order it is looked at. */
  lemma ChangeStopped(w: World, wire: ChangeWire, tail: bytes)
    requires wire.Printable()
    ensures var enc := w.resolve(Described(Legacy, wire.enc));
            var pvk := w.resolve(Described(if wire.Du() then Legacy else Key32, wire.pvk));
            var o := HandleChange(w, wire.Du(), wire.Print(tail));
            && (enc.Err? ==> o == Failure(enc.error, []))
            && (enc.Ok? && pvk.Err? ==> o == Failure(pvk.error, []))
            && (enc.Ok? && pvk.Ok? && FormatOf(wire.format).Err? ==> o == Coded('2', '3', [], []))
  {
    ErrorCodes();
    hide ChangeFrom, ChangeWire.Print, IsKey, Described, VerifyThenGenerate, TrimFill, Selector.Printable, FormatOf,
         Selector.Meaning, ErrorCode, Code;
    ChangeRoundTrip(wire, tail);
  }

  /** A payload that is no request is answered 15 without a call. */
  lemma ChangeMalformed(w: World, du: bool, payload: bytes)
    requires ChangeFrom(du, payload).Err?
    ensures HandleChange(w, du, payload) == Coded('1', '5', [], [])
  {
    ErrorCodes();
    hide ErrorCode, Code, TakeFrom, KeyFrom, ParseUsize;
  }
}
