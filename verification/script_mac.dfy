/** Issuer-script MAC commands JU and KU, mode 0 (src/handlers/thales/issuer_script_mac.rs). */
module ScriptMac {
  import opened Bytes
  import opened Reader
  import opened Keys
  import opened Emv

  datatype SessionMode = Emv2000 | Visa | MastercardSessionKey | Amex | EmvCommonSessionKey | UnionPay

  /** What seeds the session key: a transaction counter or an application cryptogram, as hex. */
  datatype Seed = Atc(hex: bytes) | Ac(hex: bytes)

  datatype SmiFields = SmiFields(
    key: KeyDescriptor, pan: bytes, panSeq: bytes, session: SessionMode, seed: Seed, message: bytes)

  const DELIMITER: byte := 0x3B

  function RequireMode0(mode: byte): Result<()> {
    if mode == 0x30 then Ok(())
    else if 0x31 <= mode <= 0x34 then Err(Unsupported)
    else Err(MalformedPayload)
  }

  /** The hex forwarded to APC: padded here unless the host says it already did. */
  function MessageForApc(raw: bytes, alreadyPadded: bool): bytes {
    Hex(if alreadyPadded then raw else Padded(raw))
  }

  /** A message is forwarded as it stands exactly when the host set the flag. */
  lemma ForwardedUnchanged(raw: bytes, alreadyPadded: bool)
    ensures MessageForApc(raw, alreadyPadded) == Hex(raw) <==> alreadyPadded
  {
    assert |Hex(Padded(raw))| > |Hex(raw)|;
  }

  function FlagFrom(rest: bytes): (r: Result<(bool, bytes)>)
    ensures r.Err? ==> r.error == MalformedPayload
  {
    var (flag, rest) :- ByteFrom(rest);
    if flag == 0x30 then Ok((false, rest))
    else if flag == 0x31 then Ok((true, rest))
    else Err(MalformedPayload)
  }

  /** read_delimited_message: no length field, so the message runs to the next ';'. */
  function DelimitedMessage(rest: bytes): (r: Result<(bytes, nat)>)
    ensures r.Ok? ==> r.value.1 <= |rest|
  {
    if DELIMITER !in rest then Err(MalformedPayload)
    else Ok((UpTo(rest, DELIMITER), |UpTo(rest, DELIMITER)|))
  }

  /** read_len_prefixed_message: four hex digits, then that many bytes. */
  function PrefixedMessage(rest: bytes): (r: Result<(bytes, nat)>)
    ensures r.Ok? ==> r.value.1 <= |rest|
  {
    if |rest| < 4 then Err(MalformedPayload)
    else
      match ParseUsize(rest[..4], 16)
      case None => Err(MalformedPayload)
      case Some(n) => if |rest| < 4 + n then Err(MalformedPayload) else Ok((rest[4..4 + n], 4 + n))
  }

  function PanSeqField(rest: bytes): (r: Result<((bytes, bytes), nat)>)
    ensures r.Ok? ==> r.value.1 <= |rest|
  {
    if |rest| < 8 then Err(MalformedPayload) else Ok((DecodePanSeq(rest[..8]), 8))
  }

  /** The UnionPay tail of JU and of KU scheme '6': ATC, padding flag, counted message, ';'. */
  function CupFrom(rest: bytes): Result<((bytes, bytes), bytes)> {
    var (atc, rest) :- TakeFrom(rest, 2);
    var (alreadyPadded, rest) :- FlagFrom(rest);
    var (raw, rest) :- SubFrom(PrefixedMessage, rest);
    var rest :- ExpectFrom(rest, DELIMITER);
    Ok(((Hex(atc), MessageForApc(raw, alreadyPadded)), rest))
  }

  function JuFrom(payload: bytes): Result<(SmiFields, bytes)> {
    var (mode, rest) :- ByteFrom(payload);
    var _ :- RequireMode0(mode);
    var (scheme, rest) :- ByteFrom(rest);
    if scheme != 0x31 then Err(MalformedPayload)
    else
      var (key, rest) :- KeyFrom(Key32, rest);
      var ((pan, panSeq), rest) :- SubFrom(PanSeqField, rest);
      var ((atc, message), rest) :- CupFrom(rest);
      Ok((SmiFields(key, pan, panSeq, Emv2000, Atc(atc), message), rest))
  }

  /** KU's table for the schemes with an 8-byte session-key field. */
  function SchemeOf(scheme: byte, skd: Field8): Result<(SessionMode, Seed)> {
    if scheme == 0x30 then Ok((Visa, Atc(Hex(skd[6..8]))))
    else if scheme == 0x31 then Ok((MastercardSessionKey, Ac(Hex(skd))))
    else if scheme == 0x32 then Ok((Amex, Atc(Hex(skd[6..8]))))
    else if scheme == 0x35 then Ok((EmvCommonSessionKey, Ac(Hex(skd))))
    else if scheme == 0x33 || scheme == 0x34 then Err(Unsupported)
    else Err(MalformedPayload)
  }

  function MessageFrom(scheme: byte, rest: bytes): Result<(bytes, bytes)> {
    SubFrom(if scheme == 0x35 then PrefixedMessage else DelimitedMessage, rest)
  }

  function KuFrom(payload: bytes): Result<(SmiFields, bytes)> {
    var (mode, rest) :- ByteFrom(payload);
    var _ :- RequireMode0(mode);
    var (scheme, rest) :- ByteFrom(rest);
    var (key, rest) :- KeyFrom(Key32, rest);
    var ((pan, panSeq), rest) :- SubFrom(PanSeqField, rest);
    if scheme == 0x36 then
      var ((atc, message), rest) :- CupFrom(rest);
      Ok((SmiFields(key, pan, panSeq, UnionPay, Atc(atc), message), rest))
    else
      var (skd, rest) :- TakeFrom(rest, 8);
      var (session, seed) :- SchemeOf(scheme, skd);
      var (raw, rest) :- MessageFrom(scheme, rest);
      var rest :- ExpectFrom(rest, DELIMITER);
      Ok((SmiFields(key, pan, panSeq, session, seed, MessageForApc(raw, false)), rest))
  }

  // ----------------------------------------------------- the cursor versions

  method ReadCup(c: FieldReader) returns (r: Result<(bytes, bytes)>)
    requires c.Valid()
    modifies c`pos
    ensures c.Valid() && r == Value(CupFrom(old(c.Rest())))
  {
    hide TakeFrom, ByteFrom, ExpectFrom, PrefixedMessage, MessageForApc, Hex, FieldReader.Rest, FieldReader.Valid;
    var atc :- c.Take(2);
    var flag :- c.Byte();
    if flag != 0x30 && flag != 0x31 {
      return Err(MalformedPayload);
    }
    var raw :- c.ParseWith(PrefixedMessage);
    var delimiter :- c.ExpectByte(DELIMITER);
    r := Ok((Hex(atc), MessageForApc(raw, flag == 0x31)));
  }

  method ParseJu(payload: bytes) returns (r: Result<SmiFields>)
    ensures r == Value(JuFrom(payload))
  {
    hide ByteFrom, KeyFrom, PanSeqField, CupFrom, FieldReader.Rest, FieldReader.Valid;
    var c := new FieldReader(payload);
    var mode :- c.Byte();
    var supported := RequireMode0(mode);
    if supported.Err? {
      return Err(supported.error);
    }
    var scheme :- c.Byte();
    if scheme != 0x31 {
      return Err(MalformedPayload);
    }
    var key :- ReadKey(c, Key32);
    var panSeq :- c.ParseWith(PanSeqField);
    var cup :- ReadCup(c);
    r := Ok(SmiFields(key, panSeq.0, panSeq.1, Emv2000, Atc(cup.0), cup.1));
  }

  method ParseKu(payload: bytes) returns (r: Result<SmiFields>)
    ensures r == Value(KuFrom(payload))
  {
    hide ByteFrom, TakeFrom, ExpectFrom, KeyFrom, PanSeqField, CupFrom, SchemeOf, PrefixedMessage,
         DelimitedMessage, MessageForApc, FieldReader.Rest, FieldReader.Valid;
    var c := new FieldReader(payload);
    var mode :- c.Byte();
    var supported := RequireMode0(mode);
    if supported.Err? {
      return Err(supported.error);
    }
    var scheme :- c.Byte();
    var key :- ReadKey(c, Key32);
    var panSeq :- c.ParseWith(PanSeqField);
    if scheme == 0x36 {
      var cup :- ReadCup(c);
      return Ok(SmiFields(key, panSeq.0, panSeq.1, UnionPay, Atc(cup.0), cup.1));
    }
    var skd :- c.Take(8);
    var mapping := SchemeOf(scheme, skd);
    if mapping.Err? {
      return Err(mapping.error);
    }
    var raw;
    if scheme == 0x35 {
      raw :- c.ParseWith(PrefixedMessage);
    } else {
      raw :- c.ParseWith(DelimitedMessage);
    }
    var delimiter :- c.ExpectByte(DELIMITER);
    r := Ok(SmiFields(key, panSeq.0, panSeq.1, mapping.value.0, mapping.value.1, MessageForApc(raw, false)));
  }

  // ------------------------------------------------------------ the printer

  datatype CupWire = CupWire(atc: bytes, padded: bool, digits: bytes, message: bytes) {
    predicate Printable() {
      |atc| == 2 && Spells(digits, 4, 16, |message|)
    }

    function Print(tail: bytes): bytes {
      atc + ([if padded then 0x31 else 0x30] + (digits + (message + ([';' as int] + tail))))
    }
  }

  /** A JU or KU request. `Delimited` is KU '0', '1', '2'; `Prefixed` is KU '5'; `Union` is KU '6'. */
  datatype SmiWire =
    | Ju(key: bytes, panSeq: Field8, cup: CupWire)
    | Union(key: bytes, panSeq: Field8, cup: CupWire)
    | Delimited(scheme: byte, key: bytes, panSeq: Field8, skd: Field8, message: bytes)
    | Prefixed(key: bytes, panSeq: Field8, skd: Field8, digits: bytes, message: bytes)
  {
    predicate Printable() {
      IsKey(Key32, key) &&
      match this
      case Ju(_, _, cup) => cup.Printable()
      case Union(_, _, cup) => cup.Printable()
      case Delimited(scheme, _, _, _, message) => 0x30 <= scheme <= 0x32 && ';' as int !in message
      case Prefixed(_, _, _, digits, message) => Spells(digits, 4, 16, |message|)
    }

    function Scheme(): byte {
      match this
      case Ju(_, _, _) => 0x31
      case Union(_, _, _) => 0x36
      case Delimited(scheme, _, _, _, _) => scheme
      case Prefixed(_, _, _, _, _) => 0x35
    }

    function PrintBody(tail: bytes): bytes {
      match this
      case Ju(_, _, cup) => cup.Print(tail)
      case Union(_, _, cup) => cup.Print(tail)
      case Delimited(_, _, _, skd, message) => skd + (message + ([';' as int] + tail))
      case Prefixed(_, _, skd, digits, message) => skd + (digits + (message + ([';' as int] + tail)))
    }

    function Print(tail: bytes): bytes {
      [0x30] + ([Scheme()] + (key + (panSeq + PrintBody(tail))))
    }

    function Meaning(): SmiFields
      requires Printable()
    {
      var desc := Described(Key32, key);
      var (pan, seqNo) := DecodePanSeq(panSeq);
      match this
      case Ju(_, _, cup) =>
        SmiFields(desc, pan, seqNo, Emv2000, Atc(Hex(cup.atc)), MessageForApc(cup.message, cup.padded))
      case Union(_, _, cup) =>
        SmiFields(desc, pan, seqNo, SessionMode.UnionPay, Atc(Hex(cup.atc)), MessageForApc(cup.message, cup.padded))
      case Delimited(scheme, _, _, skd, message) =>
        SmiFields(desc, pan, seqNo,
                  if scheme == 0x30 then Visa else if scheme == 0x31 then MastercardSessionKey else Amex,
                  if scheme == 0x31 then Ac(Hex(skd)) else Atc(Hex(skd[6..8])), MessageForApc(message, false))
      case Prefixed(_, _, skd, _, message) =>
        SmiFields(desc, pan, seqNo, EmvCommonSessionKey, Ac(Hex(skd)), MessageForApc(message, false))
    }
  }

  function SmiFrom(ju: bool, payload: bytes): Result<(SmiFields, bytes)> {
    if ju then JuFrom(payload) else KuFrom(payload)
  }

  lemma PrefixedPrinted(digits: bytes, message: bytes, tail: bytes)
    requires Spells(digits, 4, 16, |message|)
    ensures SubFrom(PrefixedMessage, digits + (message + tail)) == Ok((message, tail))
  {
    var p := digits + (message + tail);
    assert p[..4] == digits && p[4..4 + |message|] == message && p[4 + |message|..] == tail;
  }

  lemma DelimitedPrinted(message: bytes, tail: bytes)
    requires DELIMITER !in message
    ensures SubFrom(DelimitedMessage, message + ([DELIMITER] + tail)) == Ok((message, [DELIMITER] + tail))
  {
    UpToPrinted(message, DELIMITER, tail);
    var p := message + ([DELIMITER] + tail);
    assert p[|message|] == DELIMITER;
    assert p[|message|..] == [DELIMITER] + tail;
  }

  lemma PanSeqPrinted(panSeq: Field8, tail: bytes)
    ensures SubFrom(PanSeqField, panSeq + tail) == Ok((DecodePanSeq(panSeq), tail))
  {
    assert (panSeq + tail)[..8] == panSeq && (panSeq + tail)[8..] == tail;
  }

  lemma CupRoundTrip(w: CupWire, tail: bytes)
    requires w.Printable()
    ensures CupFrom(w.Print(tail)) == Ok(((Hex(w.atc), MessageForApc(w.message, w.padded)), tail))
  {
    hide TakeFrom, ByteFrom, ExpectFrom, PrefixedMessage, MessageForApc, Hex;
    TakePrinted();
    BytePrinted();
    PrefixedPrinted(w.digits, w.message, [DELIMITER] + tail);
  }

  /** Parsing a printed request gives its meaning, whatever follows it. */
  lemma SmiRoundTrip(w: SmiWire, tail: bytes)
    requires w.Printable()
    ensures SmiFrom(w.Ju?, w.Print(tail)) == Ok((w.Meaning(), tail))
  {
    hide TakeFrom, ByteFrom, ExpectFrom, KeyFrom, PanSeqField, CupFrom, CupWire.Print, PrefixedMessage,
         DelimitedMessage, MessageForApc, Hex, DecodePanSeq, IsKey, Described;
    TakePrinted();
    BytePrinted();
    KeyPrinted();
    PanSeqPrinted(w.panSeq, w.PrintBody(tail));
    match w
    case Ju(_, _, cup) => CupRoundTrip(cup, tail);
    case Union(_, _, cup) => CupRoundTrip(cup, tail);
    case Delimited(_, _, _, _, message) => DelimitedPrinted(message, tail);
    case Prefixed(_, _, _, digits, message) => PrefixedPrinted(digits, message, [DELIMITER] + tail);
  }

  // ------------------------------------------------ nothing else is accepted

  lemma PrefixedExact(rest: bytes) returns (digits: bytes)
    requires SubFrom(PrefixedMessage, rest).Ok?
    ensures var (message, after) := SubFrom(PrefixedMessage, rest).value;
            Spells(digits, 4, 16, |message|) && rest == digits + (message + after)
  {
    digits := rest[..4];
    var n := ParseUsize(digits, 16).value;
    assert rest[4..] == rest[4..4 + n] + rest[4 + n..];
  }

  lemma DelimitedExact(rest: bytes)
    requires SubFrom(DelimitedMessage, rest).Ok?
    ensures var (message, after) := SubFrom(DelimitedMessage, rest).value;
            DELIMITER !in message && rest == message + after
  {
  }

  lemma CupExact(rest: bytes) returns (w: CupWire, tail: bytes)
    requires CupFrom(rest).Ok?
    ensures w.Printable() && rest == w.Print(tail)
    ensures CupFrom(rest).value == ((Hex(w.atc), MessageForApc(w.message, w.padded)), tail)
  {
    hide TakeFrom, ByteFrom, ExpectFrom, PrefixedMessage, MessageForApc, Hex, SubFrom;
    var (atc, r1) := TakeFrom(rest, 2).value;
    var (padded, r2) := FlagFrom(r1).value;
    var (message, r3) := SubFrom(PrefixedMessage, r2).value;
    var digits := PrefixedExact(r2);
    tail := ExpectFrom(r3, DELIMITER).value;
    w := CupWire(atc, padded, digits, message);
  }

  lemma PanSeqExact(rest: bytes)
    requires SubFrom(PanSeqField, rest).Ok?
    ensures |rest| >= 8 && SubFrom(PanSeqField, rest).value == (DecodePanSeq(rest[..8]), rest[8..])
    ensures rest == rest[..8] + rest[8..]
  {
  }

  /** Conversely every accepted payload is a printed request. */
  lemma SmiExact(ju: bool, payload: bytes) returns (w: SmiWire, tail: bytes)
    requires SmiFrom(ju, payload).Ok?
    ensures w.Ju? == ju && w.Printable() && payload == w.Print(tail)
    ensures SmiFrom(ju, payload).value == (w.Meaning(), tail)
  {
    hide TakeFrom, ByteFrom, ExpectFrom, KeyFrom, PanSeqField, CupFrom, CupWire.Print, CupWire.Printable,
         PrefixedMessage, DelimitedMessage, MessageForApc, Hex, DecodePanSeq, IsKey, Described, SubFrom, Spells;
    var (_, r1) := ByteFrom(payload).value;
    var (scheme, r2) := ByteFrom(r1).value;
    var (key, r3) := KeyFrom(Key32, r2).value;
    KeyFromExact(Key32, r2);
    PanSeqExact(r3);
    var panSeq, r4 := r3[..8], r3[8..];
    if ju || scheme == 0x36 {
      var cup;
      cup, tail := CupExact(r4);
      w := if ju then Ju(key.raw, panSeq, cup) else Union(key.raw, panSeq, cup);
    } else {
      var (skd, r5) := TakeFrom(r4, 8).value;
      var (message, r6) := MessageFrom(scheme, r5).value;
      tail := ExpectFrom(r6, DELIMITER).value;
      if scheme == 0x35 {
        var digits := PrefixedExact(r5);
        w := Prefixed(key.raw, panSeq, skd, digits, message);
      } else {
        DelimitedExact(r5);
        w := Delimited(scheme, key.raw, panSeq, skd, message);
      }
    }
  }

  /** Past mode and scheme, only bad data stops a request. */
  lemma OtherwiseMalformed(scheme: byte, rest: bytes)
    ensures CupFrom(rest).Err? ==> CupFrom(rest).error == MalformedPayload
    ensures MessageFrom(scheme, rest).Err? ==> MessageFrom(scheme, rest).error == MalformedPayload
    ensures SubFrom(PanSeqField, rest).Err? <==> |rest| < 8
    ensures |rest| < 8 ==> SubFrom(PanSeqField, rest) == Err(MalformedPayload)
    ensures |rest| >= 8 ==> SubFrom(PanSeqField, rest).value.1 == rest[8..]
  {
    hide ParseUsize, Hex, DecodePanSeq;
  }

  /** JU answers "68" exactly to the confidentiality and PIN-change modes, however short the rest is. */
  lemma JuUnsupported(payload: bytes)
    ensures JuFrom(payload) == Err(Unsupported) <==> payload != [] && payload[0] as char in {'1', '2', '3', '4'}
  {
    hide KeyFrom, PanSeqField, CupFrom;
    if |payload| > 1 && KeyFrom(Key32, payload[1..][1..]).Ok? {
      var rest := KeyFrom(Key32, payload[1..][1..]).value.1;
      OtherwiseMalformed(0, rest);
      if |rest| >= 8 {
        OtherwiseMalformed(0, rest[8..]);
      }
    }
  }

  /** KU does so too, and to the two schemes without an APC session key once key, PAN and session data
      are there. */
  lemma KuUnsupported(payload: bytes)
    ensures KuFrom(payload) == Err(Unsupported) <==>
              payload != [] &&
              (payload[0] as char in {'1', '2', '3', '4'}
               || (payload[0] as char == '0' && |payload| > 1 && payload[1] as char in {'3', '4'}
                   && KeyFrom(Key32, payload[2..]).Ok? && |KeyFrom(Key32, payload[2..]).value.1| >= 16))
  {
    hide KeyFrom, PanSeqField, CupFrom, MessageFrom, Hex;
    if |payload| > 1 && KeyFrom(Key32, payload[1..][1..]).Ok? {
      assert payload[1..][1..] == payload[2..];
      var rest := KeyFrom(Key32, payload[2..]).value.1;
      OtherwiseMalformed(payload[1], rest);
      if |rest| >= 8 {
        OtherwiseMalformed(payload[1], rest[8..]);
        if |rest| >= 16 {
          OtherwiseMalformed(payload[1], rest[8..][8..]);
        }
      }
    }
  }

  /** Where the UnionPay padding flag stands: after mode, scheme, key, PAN field and ATC. */
  function FlagAt(key: bytes): nat {
    |key| + 12
  }

  lemma FlagPrinted(w: SmiWire, tail: bytes)
    requires w.Printable() && (w.Ju? || w.Union?)
    ensures FlagAt(w.key) < |w.Print(tail)| && w.Print(tail)[FlagAt(w.key)] == if w.cup.padded then 0x31 else 0x30
  {
    var cup := w.cup;
    var flagged := [if cup.padded then 0x31 else 0x30] + (cup.digits + (cup.message + ([';' as int] + tail)));
    Skip(cup.atc, flagged, 0);
    Skip(w.panSeq, cup.atc + flagged, 2);
    Skip(w.key, w.panSeq + (cup.atc + flagged), 10);
    Skip([w.Scheme()], w.key + (w.panSeq + (cup.atc + flagged)), |w.key| + 10);
    Skip([0x30], [w.Scheme()] + (w.key + (w.panSeq + (cup.atc + flagged))), |w.key| + 11);
    hide IsKey, ParseUsize;
  }

  lemma Skip(a: bytes, rest: bytes, i: nat)
    requires i < |rest|
    ensures |a| + i < |a + rest| && (a + rest)[|a| + i] == rest[i]
  {
  }

  /** Of the requests accepted, JU and KU scheme '6' forward the message as it was sent if and only
      if their flag byte is '1'; every other KU forwards it padded. */
  lemma ForwardedAsSent(ju: bool, payload: bytes) returns (w: SmiWire, tail: bytes)
    requires SmiFrom(ju, payload).Ok?
    ensures w.Ju? == ju && w.Printable() && payload == w.Print(tail)
    ensures var sent := SmiFrom(ju, payload).value.0.message;
            if w.Ju? || w.Union? then
              FlagAt(w.key) < |payload| && (sent == Hex(w.cup.message) <==> payload[FlagAt(w.key)] == 0x31)
            else sent == Hex(Padded(w.message)) != Hex(w.message)
  {
    w, tail := SmiExact(ju, payload);
    if w.Ju? || w.Union? {
      FlagPrinted(w, tail);
      ForwardedUnchanged(w.cup.message, w.cup.padded);
    } else {
      ForwardedUnchanged(w.message, false);
    }
    hide SmiFrom, SmiWire.Print, SmiWire.Printable, Hex, Padded, DecodePanSeq, Described;
  }

  /** Whatever else JU or KU refuses is bad data. */
  lemma SmiMalformed(ju: bool, payload: bytes)
    requires SmiFrom(ju, payload).Err?
    ensures SmiFrom(ju, payload).error == MalformedPayload || SmiFrom(ju, payload).error == Unsupported
  {
    hide KeyFrom, PanSeqField, CupFrom, MessageFrom, Hex;
    if |payload| > 1 && KeyFrom(Key32, payload[1..][1..]).Ok? {
      var rest := KeyFrom(Key32, payload[1..][1..]).value.1;
      OtherwiseMalformed(payload[1], rest);
      if |rest| >= 8 {
        OtherwiseMalformed(payload[1], rest[8..]);
        if |rest| >= 16 {
          OtherwiseMalformed(payload[1], rest[8..][8..]);
        }
      }
    }
  }
}
