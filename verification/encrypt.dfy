/** M0, M2 and M4: encrypt, decrypt and translate a block (src/handlers/thales/international_encrypt.rs). */
module BlockCipher {
  import opened Bytes
  import opened Reader
  import opened Keys
  import opened Apc
  import Connection

  datatype BlockFields = BlockFields(key: KeyDescriptor, text: bytes)

  const ECB: Pair := [0x30, 0x30]
  const HEX_FORMAT: byte := 0x31

  function ModeFrom(rest: bytes): (r: Result<bytes>)
    ensures r.Err? ==> r.error == MalformedPayload
  {
    var (mode, rest) :- TakeFrom(rest, 2);
    if mode == ECB then Ok(rest) else Err(MalformedPayload)
  }

  /** parse_m0_fields, shared by M0 and M2. */
  function M0From(payload: bytes): (r: Result<(BlockFields, bytes)>)
    ensures r.Err? ==> r.error == MalformedPayload
  {
    var rest :- ModeFrom(payload);
    var rest :- ExpectFrom(rest, HEX_FORMAT);
    var (_, rest) :- TakeFrom(rest, 1);
    var (_, rest) :- TakeFrom(rest, 3);
    var (key, rest) :- KeyFrom(Legacy, rest);
    var (text, rest) :- CountedFrom(rest, 4, 16, 2);
    Ok((BlockFields(key, text), rest))
  }

  datatype TranslateFields = TranslateFields(source: KeyDescriptor, target: KeyDescriptor, text: bytes)

  /** The grammar of M4, read the way M0's is. */
  function M4From(payload: bytes): (r: Result<(TranslateFields, bytes)>)
    ensures r.Err? ==> r.error == MalformedPayload
  {
    var rest :- ModeFrom(payload);
    var rest :- ModeFrom(rest);
    var rest :- ExpectFrom(rest, HEX_FORMAT);
    var (_, rest) :- TakeFrom(rest, 1);
    var (_, rest) :- TakeFrom(rest, 3);
    var (source, rest) :- KeyFrom(Legacy, rest);
    var (_, rest) :- TakeFrom(rest, 3);
    var (target, rest) :- KeyFrom(Legacy, rest);
    var (text, rest) :- CountedFrom(rest, 4, 16, 2);
    Ok((TranslateFields(source, target, text), rest))
  }

  method ParseM0(payload: bytes) returns (r: Result<BlockFields>)
    ensures r == Value(M0From(payload))
  {
    hide ByteFrom, KeyFrom, CountedFrom, FieldReader.Rest, FieldReader.Valid;
    var c := new FieldReader(payload);
    var mode :- c.Take(2);
    if mode != ECB {
      return Err(MalformedPayload);
    }
    var format :- c.Byte();
    if format != HEX_FORMAT {
      return Err(MalformedPayload);
    }
    var outFormat :- c.Take(1);
    var keyType :- c.Take(3);
    var key :- ReadKey(c, Legacy);
    var text :- c.Counted(4, 16, 2);
    r := Ok(BlockFields(key, text));
  }

  /** The bytes between two positions, as a reader at the first one takes them. */
  lemma At(payload: bytes, pos: nat, n: nat)
    requires pos <= |payload|
    ensures TakeFrom(payload[pos..], n)
         == if pos + n <= |payload| then Ok((payload[pos..pos + n], payload[pos + n..])) else Err(MalformedPayload)
  {
    if pos + n <= |payload| {
      assert payload[pos..][..n] == payload[pos..pos + n] && payload[pos..][n..] == payload[pos + n..];
    }
  }

  lemma ModeAt(payload: bytes, pos: nat)
    requires pos <= |payload|
    ensures ModeFrom(payload[pos..])
         == if pos + 2 <= |payload| && payload[pos..pos + 2] == ECB then Ok(payload[pos + 2..])
            else Err(MalformedPayload)
  {
    hide TakeFrom;
    At(payload, pos, 2);
  }

  lemma FormatAt(payload: bytes, pos: nat)
    requires pos <= |payload|
    ensures ExpectFrom(payload[pos..], HEX_FORMAT)
         == if pos < |payload| && payload[pos] == HEX_FORMAT then Ok(payload[pos + 1..]) else Err(MalformedPayload)
  {
    if pos < |payload| {
      assert payload[pos..][1..] == payload[pos + 1..];
    }
  }

  lemma KeyAt(payload: bytes, pos: nat)
    requires pos <= |payload|
    ensures KeyFrom(Legacy, payload[pos..])
         == match KeyField(Legacy, payload[pos..])
            case Err(e) => Err(e)
            case Ok((key, used)) => Ok((key, payload[pos + used..]))
  {
    hide KeyField;
    var field := KeyField(Legacy, payload[pos..]);
    if field.Ok? {
      assert payload[pos..][field.value.1..] == payload[pos + field.value.1..];
    }
  }

  /** M4 keeps its own position instead of a reader; it accepts the same grammar and never looks
      past the end of the payload. */
  method ParseM4(payload: bytes) returns (r: Result<TranslateFields>)
    ensures r == Value(M4From(payload))
  {
    hide TakeFrom, ExpectFrom, KeyField, KeyFrom, ParseUsize, ModeFrom;
    var pos: nat := 0;
    assert payload[0..] == payload;
    ModeAt(payload, pos);
    if |payload| < pos + 2 || payload[pos..pos + 2] != ECB {
      return Err(MalformedPayload);
    }
    pos := pos + 2;
    ModeAt(payload, pos);
    if |payload| < pos + 2 || payload[pos..pos + 2] != ECB {
      return Err(MalformedPayload);
    }
    pos := pos + 2;
    FormatAt(payload, pos);
    if |payload| < pos + 1 || payload[pos] != HEX_FORMAT {
      return Err(MalformedPayload);
    }
    pos := pos + 1;
    At(payload, pos, 1);
    if |payload| < pos + 1 {
      return Err(MalformedPayload);
    }
    pos := pos + 1;
    At(payload, pos, 3);
    if |payload| < pos + 3 {
      return Err(MalformedPayload);
    }
    pos := pos + 3;
    KeyAt(payload, pos);
    var source := KeyField(Legacy, payload[pos..]);
    if source.Err? {
      return Err(source.error);
    }
    pos := pos + source.value.1;
    At(payload, pos, 3);
    if |payload| < pos + 3 {
      return Err(MalformedPayload);
    }
    pos := pos + 3;
    KeyAt(payload, pos);
    var target := KeyField(Legacy, payload[pos..]);
    if target.Err? {
      return Err(target.error);
    }
    pos := pos + target.value.1;
    At(payload, pos, 4);
    if |payload| < pos + 4 {
      return Err(MalformedPayload);
    }
    var n := ParseUsize(payload[pos..pos + 4], 16);
    if n.None? {
      return Err(MalformedPayload);
    }
    pos := pos + 4;
    At(payload, pos, n.value * 2);
    if |payload| < pos + n.value * 2 {
      return Err(MalformedPayload);
    }
    r := Ok(TranslateFields(source.value.0, target.value.0, payload[pos..pos + n.value * 2]));
  }

  // --------------------------------------------------------------- handlers

  /** A reply's message: its length in bytes, then its hex digits. */
  function LengthAndText(text: bytes): (r: bytes)
    ensures |text| / 2 < 0x10000 ==> |r| == 4 + |text|
  {
    Hex04(|text| / 2) + text
  }

  function HandleM0(w: World, payload: bytes): (o: Outcome)
    ensures o.Done?
  {
    match M0From(payload)
    case Err(e) => Failure(e, [])
    case Ok((f, _)) =>
      match w.resolve(f.key)
      case Err(e) => Failure(e, [])
      case Ok(arn) =>
        match w.apc.encrypt(arn, f.text)
        case None => Failure(ApcError, [Encrypt(arn, f.text)])
        case Some(cipher) => Success(LengthAndText(cipher), [Encrypt(arn, f.text)])
  }

  function HandleM2(w: World, payload: bytes): (o: Outcome)
    ensures o.Done?
  {
    match M0From(payload)
    case Err(e) => Failure(e, [])
    case Ok((f, _)) =>
      match w.resolve(f.key)
      case Err(e) => Failure(e, [])
      case Ok(arn) =>
        match w.apc.decrypt(arn, f.text)
        case None => Failure(ApcError, [Decrypt(arn, f.text)])
        case Some(plain) => Success(LengthAndText(plain), [Decrypt(arn, f.text)])
  }

  /** Two calls, since one re-encrypt call is refused for these keys. */
  function HandleM4(w: World, payload: bytes): (o: Outcome)
    ensures o.Done?
  {
    match M4From(payload)
    case Err(e) => Failure(e, [])
    case Ok((f, _)) =>
      match w.resolve(f.source)
      case Err(e) => Failure(e, [])
      case Ok(srcArn) =>
        match w.resolve(f.target)
        case Err(e) => Failure(e, [])
        case Ok(dstArn) => Translate(w.apc, srcArn, dstArn, f.text)
  }

  function Translate(apc: Client, srcArn: bytes, dstArn: bytes, text: bytes): (o: Outcome)
    ensures o.Done?
  {
    match apc.decrypt(srcArn, text)
    case None => Failure(ApcError, [Decrypt(srcArn, text)])
    case Some(plain) =>
      match apc.encrypt(dstArn, plain)
      case None => Failure(ApcError, [Decrypt(srcArn, text), Encrypt(dstArn, plain)])
      case Some(cipher) => Success(LengthAndText(cipher), [Decrypt(srcArn, text), Encrypt(dstArn, plain)])
  }

  /** APC's ciphers: length preserving, decrypt undoes encrypt, answers in upper-case hex. */
  ghost predicate CipherContract(apc: Client) {
    && (forall arn, text :: apc.encrypt(arn, text).Some? ==>
          |apc.encrypt(arn, text).value| == |text|
          && apc.decrypt(arn, apc.encrypt(arn, text).value) == Some(Upper(text)))
    && (forall arn, text :: apc.decrypt(arn, text).Some? ==> |apc.decrypt(arn, text).value| == |text|)
  }

  // ------------------------------------------------- printed and parsed back

  lemma {:induction false} DigitsBound(s: bytes, radix: Radix)
    requires DigitsValue(s, radix).Some?
    ensures DigitsValue(s, radix).value < Power(radix, |s|)
  {
    hide DigitValue;
    if s != [] {
      DigitsBound(s[..|s| - 1], radix);
      var hi, lo := DigitsValue(s[..|s| - 1], radix).value, DigitValue(s[|s| - 1], radix).value;
      BelowStep(hi, lo, radix, Power(radix, |s| - 1));
    }
  }

  /** A four-character hex length is below 2^16. */
  lemma LengthFits(digits: bytes)
    requires |digits| == 4 && ParseUsize(digits, 16).Some?
    ensures ParseUsize(digits, 16).value < 0x10000
  {
    Widths();
    if digits[0] == 0x2B {
      DigitsBound(digits[1..], 16);
    } else {
      DigitsBound(digits, 16);
    }
  }

  /** A text a request can carry: some four-character length field counts its byte pairs. */
  predicate Carried(text: bytes) {
    |text| % 2 == 0 && |text| / 2 < 0x10000
  }

  lemma LengthAndTextParsed(text: bytes, tail: bytes)
    requires Carried(text)
    ensures CountedFrom(LengthAndText(text) + tail, 4, 16, 2) == Ok((text, tail))
  {
    CountedPrinted();
    assert LengthAndText(text) + tail == Hex04(|text| / 2) + (text + tail);
  }

  /** What stands before the message of an M0 or M2 request. */
  datatype M0Head = M0Head(outFormat: bytes, keyType: bytes, key: bytes) {
    predicate Printable() {
      |outFormat| == 1 && |keyType| == 3 && IsKey(Legacy, key)
    }

    function Print(tail: bytes): bytes {
      Code('0', '0') + (['1' as int] + (outFormat + (keyType + (key + tail))))
    }
  }

  /** However its length is spelled. */
  predicate Counted(digits: bytes, text: bytes) {
    |digits| == 4 && ParseUsize(digits, 16).Some? && ParseUsize(digits, 16).value * 2 == |text|
  }

  lemma M0RoundTrip(h: M0Head, digits: bytes, text: bytes, tail: bytes)
    requires h.Printable() && Counted(digits, text)
    ensures M0From(h.Print(digits + (text + tail))) == Ok((BlockFields(Described(Legacy, h.key), text), tail))
  {
    hide TakeFrom, ExpectFrom, KeyFrom, CountedFrom, IsKey, Described, ParseUsize;
    TakePrinted();
    BytePrinted();
    KeyPrinted();
    CountedPrinted();
  }

  lemma CountsItself(text: bytes, tail: bytes)
    requires Carried(text)
    ensures Counted(Hex04(|text| / 2), text) && LengthAndText(text) + tail == Hex04(|text| / 2) + (text + tail)
  {
  }

  lemma M0Printed(h: M0Head, text: bytes, tail: bytes)
    requires h.Printable() && Carried(text)
    ensures M0From(h.Print(LengthAndText(text) + tail)) == Ok((BlockFields(Described(Legacy, h.key), text), tail))
  {
    hide IsKey, Described, LengthAndText, M0From, M0Head.Print;
    CountsItself(text, tail);
    M0RoundTrip(h, Hex04(|text| / 2), text, tail);
  }

  lemma M0Exact(payload: bytes) returns (h: M0Head, rest: bytes)
    requires M0From(payload).Ok?
    ensures h.Printable() && payload == h.Print(rest) && Described(Legacy, h.key) == M0From(payload).value.0.key
    ensures CountedFrom(rest, 4, 16, 2) == Ok((M0From(payload).value.0.text, M0From(payload).value.1))
    ensures Carried(M0From(payload).value.0.text)
  {
    hide TakeFrom, ExpectFrom, KeyFrom, CountedFrom, IsKey, Described, ParseUsize;
    var r1 := ModeFrom(payload).value;
    var r2 := ExpectFrom(r1, HEX_FORMAT).value;
    var (outFormat, r3) := TakeFrom(r2, 1).value;
    var (keyType, r4) := TakeFrom(r3, 3).value;
    var (key, r5) := KeyFrom(Legacy, r4).value;
    KeyFromExact(Legacy, r4);
    rest := r5;
    var (text, r6) := CountedFrom(rest, 4, 16, 2).value;
    assert M0From(payload) == Ok((BlockFields(key, text), r6));
    h := M0Head(outFormat, keyType, key.raw);
    var digits := CountedExact(rest, 4, 16, 2);
    LengthFits(digits);
  }

  datatype M4Head = M4Head(outFormat: bytes, sourceType: bytes, source: bytes, targetType: bytes, target: bytes) {
    predicate Printable() {
      |outFormat| == 1 && |sourceType| == 3 && |targetType| == 3 && IsKey(Legacy, source) && IsKey(Legacy, target)
    }

    function Print(tail: bytes): bytes {
      Code('0', '0') + (Code('0', '0') + (['1' as int]
      + (outFormat + (sourceType + (source + (targetType + (target + tail)))))))
    }
  }

  lemma M4RoundTrip(h: M4Head, digits: bytes, text: bytes, tail: bytes)
    requires h.Printable() && Counted(digits, text)
    ensures M4From(h.Print(digits + (text + tail)))
         == Ok((TranslateFields(Described(Legacy, h.source), Described(Legacy, h.target), text), tail))
  {
    hide TakeFrom, ExpectFrom, KeyFrom, CountedFrom, IsKey, Described, ParseUsize;
    TakePrinted();
    BytePrinted();
    KeyPrinted();
    CountedPrinted();
  }

  lemma M4Printed(h: M4Head, text: bytes, tail: bytes)
    requires h.Printable() && Carried(text)
    ensures M4From(h.Print(LengthAndText(text) + tail))
         == Ok((TranslateFields(Described(Legacy, h.source), Described(Legacy, h.target), text), tail))
  {
    hide IsKey, Described, LengthAndText, M4From, M4Head.Print;
    CountsItself(text, tail);
    M4RoundTrip(h, Hex04(|text| / 2), text, tail);
  }

  /** Every accepted M4 payload is a printed head and a counted text. */
  lemma M4Exact(payload: bytes) returns (h: M4Head, digits: bytes)
    requires M4From(payload).Ok?
    ensures h.Printable() && Counted(digits, M4From(payload).value.0.text)
    ensures var (f, tail) := M4From(payload).value;
            && payload == h.Print(digits + (f.text + tail))
            && Described(Legacy, h.source) == f.source && Described(Legacy, h.target) == f.target
  {
    hide TakeFrom, ExpectFrom, KeyFrom, CountedFrom, IsKey, Described, ParseUsize;
    var r1 := ModeFrom(payload).value;
    var r2 := ModeFrom(r1).value;
    var r3 := ExpectFrom(r2, HEX_FORMAT).value;
    var (outFormat, r4) := TakeFrom(r3, 1).value;
    var (sourceType, r5) := TakeFrom(r4, 3).value;
    var (source, r6) := KeyFrom(Legacy, r5).value;
    KeyFromExact(Legacy, r5);
    var (targetType, r7) := TakeFrom(r6, 3).value;
    var (target, r8) := KeyFrom(Legacy, r7).value;
    KeyFromExact(Legacy, r7);
    digits := CountedExact(r8, 4, 16, 2);
    h := M4Head(outFormat, sourceType, source.raw, targetType, target.raw);
  }

  lemma M4Carried(payload: bytes)
    requires M4From(payload).Ok?
    ensures Carried(M4From(payload).value.0.text) && |M4From(payload).value.0.text| + 46 <= |payload|
  {
    hide KeyFrom, CountedFrom, ParseUsize;
    var r1 := ModeFrom(payload).value;
    var r2 := ModeFrom(r1).value;
    var r3 := ExpectFrom(r2, HEX_FORMAT).value;
    var (_, r4) := TakeFrom(r3, 1).value;
    var (_, r5) := TakeFrom(r4, 3).value;
    var (_, r6) := KeyFrom(Legacy, r5).value;
    KeyShortens(r5);
    var (_, r7) := TakeFrom(r6, 3).value;
    var (_, r8) := KeyFrom(Legacy, r7).value;
    KeyShortens(r7);
    var digits := CountedExact(r8, 4, 16, 2);
    LengthFits(digits);
  }

  lemma KeyShortens(rest: bytes)
    requires KeyFrom(Legacy, rest).Ok?
    ensures |KeyFrom(Legacy, rest).value.1| + 16 <= |rest|
  {
    hide KeyField;
  }

  lemma M0Carried(payload: bytes)
    requires M0From(payload).Ok?
    ensures Carried(M0From(payload).value.0.text) && |M0From(payload).value.0.text| + 27 <= |payload|
  {
    hide M0From, ParseUsize, CountedFrom, IsKey, Described;
    var h, rest := M0Exact(payload);
    var digits := CountedExact(rest, 4, 16, 2);
    KeyLength(h.key);
  }

  lemma KeyLength(key: bytes)
    requires IsKey(Legacy, key)
    ensures |key| >= 16
  {
    hide KeyField;
  }

  // ------------------------------------------------------------- main results

  /** The reply of M0 is, byte for byte, the length and message an M2 request ends with; that
      request is answered with the plaintext, in upper-case hex, and its length. */
  lemma DecryptUndoesEncrypt(w: World, payload: bytes) returns (h: M0Head, rest: bytes)
    requires CipherContract(w.apc) && M0From(payload).Ok? && Succeeded(HandleM0(w, payload))
    ensures h.Printable() && payload == h.Print(rest)
    ensures HandleM2(w, h.Print(HandleM0(w, payload).reply.payload)).reply
         == Connection.Reply(SUCCESS, LengthAndText(Upper(M0From(payload).value.0.text)))
  {
    hide CountedFrom, LengthAndText, IsKey, Described, M0Head.Print, M0Head.Printable;
    h, rest := M0Exact(payload);
    hide M0From;
    var f := M0From(payload).value.0;
    NoErrorIsSuccess(ApcError);
    if w.resolve(f.key).Err? {
      NoErrorIsSuccess(w.resolve(f.key).error);
    }
    var cipher := w.apc.encrypt(w.resolve(f.key).value, f.text).value;
    M0Printed(h, cipher, []);
    assert LengthAndText(cipher) + [] == LengthAndText(cipher);
  }

  /** M4 of an M0 ciphertext gives a ciphertext that M2 decrypts, under the destination key, to the
      same plaintext: for every M0 request answered 00, however it spells its length, and every M4
      and M2 whose keys resolve to the same ones. */
  lemma TranslateKeepsPlaintext(w: World, payload: bytes, translateHead: M4Head, decryptHead: M0Head)
    requires CipherContract(w.apc) && M0From(payload).Ok? && Succeeded(HandleM0(w, payload))
    requires translateHead.Printable() && decryptHead.Printable()
    requires w.resolve(Described(Legacy, translateHead.source)) == w.resolve(M0From(payload).value.0.key)
    requires w.resolve(Described(Legacy, decryptHead.key)) == w.resolve(Described(Legacy, translateHead.target))
    requires Succeeded(HandleM4(w, translateHead.Print(HandleM0(w, payload).reply.payload)))
    ensures var translated := HandleM4(w, translateHead.Print(HandleM0(w, payload).reply.payload));
            HandleM2(w, decryptHead.Print(translated.reply.payload)).reply
            == Connection.Reply(SUCCESS, LengthAndText(Upper(M0From(payload).value.0.text)))
  {
    var f := M0From(payload).value.0;
    M0Carried(payload);
    var srcKey, dstKey := Described(Legacy, translateHead.source), Described(Legacy, translateHead.target);
    hide LengthAndText, IsKey, Described, M0Head.Print, M4Head.Print, M0From, M4From, M0Head.Printable,
         M4Head.Printable;
    assert forall t :: LengthAndText(t) + [] == LengthAndText(t);
    NoErrorIsSuccess(ApcError);
    if w.resolve(srcKey).Err? {
      NoErrorIsSuccess(w.resolve(srcKey).error);
    }
    var srcArn := w.resolve(srcKey).value;
    var cipher := w.apc.encrypt(srcArn, f.text).value;
    M4Printed(translateHead, cipher, []);
    if w.resolve(dstKey).Err? {
      NoErrorIsSuccess(w.resolve(dstKey).error);
    }
    var dstArn := w.resolve(dstKey).value;
    var again := w.apc.encrypt(dstArn, Upper(f.text)).value;
    M0Printed(decryptHead, again, []);
    UpperIdempotent(f.text);
  }

  /** A reply that fits a 16-bit frame, and on success says its own length in four hex digits. */
  ghost predicate FitsFrame(payload: bytes, o: Outcome) {
    && o.Done? && |o.reply.payload| <= Connection.MAX_REPLY_PAYLOAD
    && (Succeeded(o) ==> exists text :: SelfDescribing(text, o.reply.payload) && |text| <= |payload| - 27)
  }

  predicate SelfDescribing(text: bytes, reply: bytes) {
    |reply| == 4 + |text| && reply[4..] == text && |text| % 2 == 0 && ParseUsize(reply[..4], 16) == Some(|text| / 2)
  }

  lemma LengthAndTextDescribes(text: bytes)
    requires Carried(text)
    ensures SelfDescribing(text, LengthAndText(text))
  {
    assert LengthAndText(text)[..4] == Hex04(|text| / 2) && LengthAndText(text)[4..] == text;
  }

  lemma FailureFits(payload: bytes, e: ProxyError, calls: seq<Call>)
    ensures FitsFrame(payload, Failure(e, calls))
  {
    NoErrorIsSuccess(e);
  }

  lemma SuccessFits(payload: bytes, text: bytes, calls: seq<Call>)
    requires Carried(text) && |text| <= |payload| - 27 && |payload| <= 65531
    ensures FitsFrame(payload, Success(LengthAndText(text), calls))
  {
    LengthAndTextDescribes(text);
    hide LengthAndText, SelfDescribing;
    assert SelfDescribing(text, LengthAndText(text));
  }

  /** Every request that arrived in a 16-bit frame (payload at most 65531 bytes) is answered with a
      reply that fits one: neither the four-digit length nor the frame length overflows. */
  lemma RepliesNeverOverflow(w: World, payload: bytes)
    requires CipherContract(w.apc) && |payload| <= 65531
    ensures FitsFrame(payload, HandleM0(w, payload)) && FitsFrame(payload, HandleM2(w, payload))
    ensures FitsFrame(payload, HandleM4(w, payload))
  {
    hide M0From, M4From, FitsFrame, LengthAndText, ErrorCode;
    forall e, calls ensures FitsFrame(payload, Failure(e, calls)) {
      FailureFits(payload, e, calls);
    }
    forall text, calls | Carried(text) && |text| <= |payload| - 27
      ensures FitsFrame(payload, Success(LengthAndText(text), calls))
    {
      SuccessFits(payload, text, calls);
    }
    if M0From(payload).Ok? {
      M0Carried(payload);
    }
    if M4From(payload).Ok? {
      M4Carried(payload);
    }
  }

  // ------------------------------------------- from the wire to APC and back

  /** What the host gets for a block that APC returned: its length in four upper-case hex digits and its
      text. */
  ghost predicate BlockAnswer(o: Outcome, block: Option<bytes>, calls: seq<Call>) {
    match block
    case None => o == Coded('4', '1', [], calls)
    case Some(text) =>
      && o.Done? && o.reply.error == Code('0', '0') && o.calls == calls
      && (|text| < 0x20000 ==> o.reply.payload == FixedDigits(|text| / 2, 4, 16) + text)
  }

  lemma BlockSucceeds(text: bytes, calls: seq<Call>)
    ensures BlockAnswer(Success(LengthAndText(text), calls), Some(text), calls)
  {
    ErrorCodes();
    hide ErrorCode, Code, FixedDigits;
  }

  lemma BlockFails(calls: seq<Call>)
    ensures BlockAnswer(Failure(ApcError, calls), None, calls)
  {
    ErrorCodes();
    hide ErrorCode, Code;
  }

  /** M0 has APC encrypt the text on the wire, and M2 has it decrypt that text, under the key on the wire
      and nothing else. */
  lemma BlockRun(w: World, h: M0Head, digits: bytes, text: bytes, tail: bytes, arn: bytes)
    requires h.Printable() && Counted(digits, text) && w.resolve(Described(Legacy, h.key)) == Ok(arn)
    ensures BlockAnswer(HandleM0(w, h.Print(digits + (text + tail))), w.apc.encrypt(arn, text), [Encrypt(arn, text)])
    ensures BlockAnswer(HandleM2(w, h.Print(digits + (text + tail))), w.apc.decrypt(arn, text), [Decrypt(arn, text)])
  {
    hide M0From, M0Head.Print, IsKey, Described, BlockAnswer, Counted, Success, Failure, LengthAndText;
    M0RoundTrip(h, digits, text, tail);
    BlockFails([Encrypt(arn, text)]);
    BlockFails([Decrypt(arn, text)]);
    if w.apc.encrypt(arn, text).Some? {
      BlockSucceeds(w.apc.encrypt(arn, text).value, [Encrypt(arn, text)]);
    }
    if w.apc.decrypt(arn, text).Some? {
      BlockSucceeds(w.apc.decrypt(arn, text).value, [Decrypt(arn, text)]);
    }
  }

  /** M4 has APC decrypt the text on the wire under the source key, then encrypt what came out under the
      destination key. */
  lemma TranslateRun(w: World, h: M4Head, digits: bytes, text: bytes, tail: bytes, source: bytes, target: bytes)
    requires h.Printable() && Counted(digits, text)
    requires w.resolve(Described(Legacy, h.source)) == Ok(source)
    requires w.resolve(Described(Legacy, h.target)) == Ok(target)
    ensures var o := HandleM4(w, h.Print(digits + (text + tail)));
            match w.apc.decrypt(source, text)
            case None => BlockAnswer(o, None, [Decrypt(source, text)])
            case Some(plain) =>
              BlockAnswer(o, w.apc.encrypt(target, plain), [Decrypt(source, text), Encrypt(target, plain)])
  {
    hide M4From, M4Head.Print, IsKey, Described, BlockAnswer, Counted, Success, Failure, LengthAndText;
    M4RoundTrip(h, digits, text, tail);
    BlockFails([Decrypt(source, text)]);
    if w.apc.decrypt(source, text).Some? {
      var plain := w.apc.decrypt(source, text).value;
      var calls := [Decrypt(source, text), Encrypt(target, plain)];
      BlockFails(calls);
      if w.apc.encrypt(target, plain).Some? {
        BlockSucceeds(w.apc.encrypt(target, plain).value, calls);
      }
    }
  }

  /** A key that is not known ends the command before any call, the source first. */
  lemma BlockUnresolved(w: World, h: M0Head, t: M4Head, digits: bytes, text: bytes, tail: bytes)
    requires h.Printable() && t.Printable() && Counted(digits, text)
    ensures var key := w.resolve(Described(Legacy, h.key));
            key.Err? ==> HandleM0(w, h.Print(digits + (text + tail))) == Failure(key.error, [])
                         && HandleM2(w, h.Print(digits + (text + tail))) == Failure(key.error, [])
    ensures var source, target := w.resolve(Described(Legacy, t.source)), w.resolve(Described(Legacy, t.target));
            var o := HandleM4(w, t.Print(digits + (text + tail)));
            && (source.Err? ==> o == Failure(source.error, []))
            && (source.Ok? && target.Err? ==> o == Failure(target.error, []))
  {
    hide M0From, M4From, M0Head.Print, M4Head.Print, IsKey, Described, Counted, Failure;
    M0RoundTrip(h, digits, text, tail);
    M4RoundTrip(t, digits, text, tail);
  }

  /** A payload that is no request is answered 15 without a call. */
  lemma BlockMalformed(w: World, payload: bytes)
    ensures M0From(payload).Err? ==> HandleM0(w, payload) == HandleM2(w, payload) == Coded('1', '5', [], [])
    ensures M4From(payload).Err? ==> HandleM4(w, payload) == Coded('1', '5', [], [])
  {
    ErrorCodes();
    hide ErrorCode, Code, M0From, M4From;
  }
}
