/** The ARQC commands KQ and KW (src/handlers/thales/kq_arqc.rs, kw_arqc.rs): one grammar shape,
    two scheme tables, a mode-dependent tail. */
module Arqc {
  import opened Bytes
  import opened Framing
  import opened Reader
  import opened Keys
  import opened Emv

  datatype Family = Kq | Kw

  datatype EmvSession = EmvCommon | Emv2000 | Mastercard | Amex | Visa | UnionPay

  datatype ArpcParams = Method1(code: bytes) | Method2(cardStatus: bytes, proprietary: bytes)

  /** The fields both commands carry; binary ones as upper-case hex. */
  datatype Cryptogram = Cryptogram(
    key: KeyDescriptor, pan: bytes, panSeq: bytes, atc: bytes, un: bytes, txnData: bytes, arqc: bytes)

  /** What the handler forwards to APC. */
  datatype ArqcFields = ArqcFields(
    mode: byte, optionA: bool, session: EmvSession, cryptogram: Cryptogram, arpc: Option<ArpcParams>)

  const DELIMITER: byte := 0x3B

  /** KQ (p.468) and KW (p.471) scheme tables. KW's cloud, LUK, Option C and JCB schemes have no
      APC equivalent. */
  function SessionOf(family: Family, scheme: byte): (r: Result<EmvSession>)
    ensures r.Err? ==> r.error == MalformedPayload || r.error == Unsupported
  {
    if family.Kq? then
      if scheme == 0x30 then Ok(Visa)
      else if scheme == 0x31 then Ok(Mastercard)
      else if scheme == 0x32 then Ok(Amex)
      else Err(MalformedPayload)
    else
      if scheme == 0x30 || scheme == 0x31 then Ok(Emv2000)
      else if scheme == 0x32 || scheme == 0x33 || scheme == 0x35 then Ok(EmvCommon)
      else if scheme == 0x43 then Ok(UnionPay)
      else if scheme == 0x34 || 0x36 <= scheme <= 0x39 || scheme == 0x41 || scheme == 0x42
      then Err(Unsupported)
      else Err(MalformedPayload)
  }

  /** The session each scheme selects, by its character; the schemes APC has no equivalent for; and
      everything else. */
  lemma Schemes(scheme: byte)
    ensures SessionOf(Kq, scheme) ==
              match scheme as char
              case '0' => Ok(Visa)
              case '1' => Ok(Mastercard)
              case '2' => Ok(Amex)
              case _ => Err(MalformedPayload)
    ensures SessionOf(Kw, scheme) ==
              match scheme as char
              case '0' | '1' => Ok(Emv2000)
              case '2' | '3' | '5' => Ok(EmvCommon)
              case 'C' => Ok(UnionPay)
              case '4' | '6' | '7' | '8' | '9' | 'A' | 'B' => Err(Unsupported)
              case _ => Err(MalformedPayload)
  {
  }

  predicate IsMode(mode: byte) {
    mode == 0x30 || mode == 0x31 || mode == 0x32
  }

  /** KW's explicit Option A/B selector; KQ has none and always uses Option A. */
  function OptionFrom(family: Family, rest: bytes): (r: Result<(bool, bytes)>)
    ensures r.Err? ==> r.error == MalformedPayload
  {
    if family.Kq? then Ok((true, rest))
    else
      var (selector, after) :- ByteFrom(rest);
      if selector == 0x41 then Ok((true, after))
      else if selector == 0x42 then Ok((false, after))
      else Err(MalformedPayload)
  }

  function ArpcFrom(mode: byte, rest: bytes): (r: Result<(Option<ArpcParams>, bytes)>)
    ensures r.Err? ==> r.error == MalformedPayload
  {
    if mode == 0x31 then
      var (code, after) :- TakeFrom(rest, 2);
      Ok((Some(Method1(Hex(code))), after))
    else if mode == 0x32 then
      var (status, after) :- TakeFrom(rest, 4);
      var (n, after) :- ByteFrom(after);
      var (pad, after) :- TakeFrom(after, n);
      Ok((Some(Method2(Hex(status), Hex(pad))), after))
    else Ok((None, rest))
  }

  /** Key type (ignored) and key, PAN and sequence, ATC, UN, counted transaction data, ARQC. */
  function CryptogramFrom(rest: bytes): (r: Result<(Cryptogram, bytes)>)
    ensures r.Err? ==> r.error == MalformedPayload
  {
    var (_, rest) :- TakeFrom(rest, 3);
    var (key, rest) :- KeyFrom(Legacy, rest);
    var (panSeq, rest) :- TakeFrom(rest, 8);
    var (atc, rest) :- TakeFrom(rest, 2);
    var (un, rest) :- TakeFrom(rest, 4);
    var (txnLen, rest) :- U16From(rest);
    var (txn, rest) :- TakeFrom(rest, txnLen);
    var rest :- ExpectFrom(rest, DELIMITER);
    var (arqc, rest) :- TakeFrom(rest, 8);
    var (pan, seqNo) := DecodePanSeq(panSeq);
    Ok((Cryptogram(key, pan, seqNo, Hex(atc), Hex(un), Hex(Padded(txn)), Hex(arqc)), rest))
  }

  /** The whole grammar, returning the fields and the bytes left unread. */
  function ArqcFrom(family: Family, payload: bytes): Result<(ArqcFields, bytes)> {
    var (mode, rest) :- ByteFrom(payload);
    if !IsMode(mode) then Err(MalformedPayload)
    else
      var (scheme, rest) :- ByteFrom(rest);
      var session :- SessionOf(family, scheme);
      var (optionA, rest) :- OptionFrom(family, rest);
      var (cryptogram, rest) :- CryptogramFrom(rest);
      var (arpc, rest) :- ArpcFrom(mode, rest);
      Ok((ArqcFields(mode, optionA, session, cryptogram, arpc), rest))
  }

  // ----------------------------------------------------- the cursor versions

  method ParseKq(payload: bytes) returns (r: Result<ArqcFields>)
    ensures r == Value(ArqcFrom(Kq, payload))
  {
    hide ByteFrom, CryptogramFrom, ArpcFrom, IsMode, SessionOf, FieldReader.Rest, FieldReader.Valid;
    var c := new FieldReader(payload);
    var mode :- c.Byte();
    if !IsMode(mode) {
      return Err(MalformedPayload);
    }
    var scheme :- c.Byte();
    var session := SessionOf(Kq, scheme);
    if session.Err? {
      return Err(session.error);
    }
    var cryptogram :- ReadCryptogram(c);
    var arpc :- ReadArpc(c, mode);
    r := Ok(ArqcFields(mode, true, session.value, cryptogram, arpc));
  }

  method ParseKw(payload: bytes) returns (r: Result<ArqcFields>)
    ensures r == Value(ArqcFrom(Kw, payload))
  {
    hide ByteFrom, CryptogramFrom, ArpcFrom, IsMode, SessionOf, FieldReader.Rest, FieldReader.Valid;
    var c := new FieldReader(payload);
    var mode :- c.Byte();
    if !IsMode(mode) {
      return Err(MalformedPayload);
    }
    var scheme :- c.Byte();
    var session := SessionOf(Kw, scheme);
    if session.Err? {
      return Err(session.error);
    }
    var selector :- c.Byte();
    if selector != 0x41 && selector != 0x42 {
      return Err(MalformedPayload);
    }
    var cryptogram :- ReadCryptogram(c);
    var arpc :- ReadArpc(c, mode);
    r := Ok(ArqcFields(mode, selector == 0x41, session.value, cryptogram, arpc));
  }

  method ReadCryptogram(c: FieldReader) returns (r: Result<Cryptogram>)
    requires c.Valid()
    modifies c`pos
    ensures c.Valid() && r == Value(CryptogramFrom(old(c.Rest())))
    ensures r.Ok? ==> c.Rest() == CryptogramFrom(old(c.Rest())).value.1
  {
    hide TakeFrom, ByteFrom, ExpectFrom, U16From, KeyFrom, DecodePanSeq, Hex, Padded,
         FieldReader.Rest, FieldReader.Valid;
    var keyType :- c.Take(3);
    var key :- ReadKey(c, Legacy);
    var panSeq :- c.Take(8);
    var atc :- c.Take(2);
    var un :- c.Take(4);
    var txnLen :- c.U16();
    var txn :- c.Take(txnLen);
    var padded := EmvPad(txn);
    var delimiter :- c.ExpectByte(DELIMITER);
    var arqc :- c.Take(8);
    var (pan, seqNo) := DecodePanSeq(panSeq);
    r := Ok(Cryptogram(key, pan, seqNo, Hex(atc), Hex(un), Hex(padded), Hex(arqc)));
  }

  method ReadArpc(c: FieldReader, mode: byte) returns (r: Result<Option<ArpcParams>>)
    requires c.Valid()
    modifies c`pos
    ensures c.Valid() && r == Value(ArpcFrom(mode, old(c.Rest())))
  {
    if mode == 0x31 {
      var code :- c.Take(2);
      return Ok(Some(Method1(Hex(code))));
    }
    if mode == 0x32 {
      var status :- c.Take(4);
      var n :- c.Byte();
      var pad :- c.Take(n);
      return Ok(Some(Method2(Hex(status), Hex(pad))));
    }
    return Ok(None);
  }

  // ------------------------------------------------------------ the printer

  datatype CryptogramWire = CryptogramWire(
    keyType: bytes, key: bytes, panSeq: Field8, atc: bytes, un: bytes, txn: bytes, arqc: bytes)
  {
    predicate Printable() {
      && |keyType| == 3 && IsKey(Legacy, key) && |atc| == 2 && |un| == 4
      && |txn| <= 0xFFFF && |arqc| == 8
    }

    function Print(tail: bytes): bytes {
      keyType + (key + (panSeq + (atc + (un + (U16Bytes(|txn|) + (txn + ([';' as int] + (arqc + tail))))))))
    }

    function Meaning(): Cryptogram
      requires Printable()
    {
      var (pan, seqNo) := DecodePanSeq(panSeq);
      Cryptogram(Described(Legacy, key), pan, seqNo, Hex(atc), Hex(un), Hex(Padded(txn)), Hex(arqc))
    }
  }

  datatype ArpcWire = NoArpc | Code(code: bytes) | Status(status: bytes, pad: bytes) {
    predicate Printable(mode: byte) {
      match mode
      case 0x31 => Code? && |code| == 2
      case 0x32 => Status? && |status| == 4 && |pad| < 256
      case _ => NoArpc?
    }

    function Print(tail: bytes): bytes
      requires Status? ==> |pad| < 256
    {
      match this
      case NoArpc => tail
      case Code(code) => code + tail
      case Status(status, pad) => status + ([|pad|] + (pad + tail))
    }

    function Meaning(): Option<ArpcParams> {
      match this
      case NoArpc => None
      case Code(code) => Some(Method1(Hex(code)))
      case Status(status, pad) => Some(Method2(Hex(status), Hex(pad)))
    }
  }

  /** A KQ or KW request field by field, as the host writes it; KQ has no option byte. */
  datatype ArqcWire = ArqcWire(
    mode: byte, scheme: byte, option: byte, cryptogram: CryptogramWire, arpc: ArpcWire)
  {
    predicate Printable(family: Family) {
      && mode as char in {'0', '1', '2'} && SessionOf(family, scheme).Ok?
      && (option == 0x41 || (family.Kw? && option == 0x42))
      && cryptogram.Printable() && arpc.Printable(mode)
    }

    /** The request, followed by anything. */
    function Print(family: Family, tail: bytes): bytes
      requires Printable(family)
    {
      var after := cryptogram.Print(arpc.Print(tail));
      [mode] + ([scheme] + (if family.Kw? then [option] + after else after))
    }

    function Meaning(family: Family): ArqcFields
      requires Printable(family)
    {
      ArqcFields(mode, option == 0x41, SessionOf(family, scheme).value, cryptogram.Meaning(), arpc.Meaning())
    }
  }

  lemma U16Printed()
    ensures forall n: nat, tail: bytes {:trigger U16From(U16Bytes(n) + tail)} ::
              n <= 0xFFFF ==> U16From(U16Bytes(n) + tail) == Ok((n, tail))
  {
    forall n: nat, tail: bytes | n <= 0xFFFF ensures U16From(U16Bytes(n) + tail) == Ok((n, tail)) {
      U16Framed(n, tail);
    }
  }

  lemma U16Framed(n: nat, tail: bytes)
    requires n <= 0xFFFF
    ensures U16From(U16Bytes(n) + tail) == Ok((n, tail))
  {
    var pair := U16Bytes(n);
    hide U16Bytes, U16;
    assert TakeFrom(pair + tail, 2) == Ok((pair, tail)) by {
      TakePrinted();
    }
  }

  lemma U16Exact(rest: bytes)
    requires U16From(rest).Ok?
    ensures var (n, after) := U16From(rest).value;
            n <= 0xFFFF && rest == U16Bytes(n) + after
  {
    hide U16, U16Bytes;
    U16RoundTrip(rest[0], rest[1]);
    assert rest[..2] == [rest[0], rest[1]];
  }

  lemma CryptogramRoundTrip(w: CryptogramWire, tail: bytes)
    requires w.Printable()
    ensures CryptogramFrom(w.Print(tail)) == Ok((w.Meaning(), tail))
  {
    hide TakeFrom, ExpectFrom, U16From, U16Bytes, KeyFrom, DecodePanSeq, Hex, Padded, Described, IsKey;
    TakePrinted();
    BytePrinted();
    U16Printed();
    KeyPrinted();
  }

  lemma ArpcRoundTrip(mode: byte, w: ArpcWire, tail: bytes)
    requires w.Printable(mode)
    ensures ArpcFrom(mode, w.Print(tail)) == Ok((w.Meaning(), tail))
  {
    hide TakeFrom, ByteFrom, Hex;
    TakePrinted();
    BytePrinted();
  }

  /** Parsing what a host printed gives the request's meaning, and nothing after it matters. */
  lemma ArqcRoundTrip(family: Family, w: ArqcWire, tail: bytes)
    requires w.Printable(family)
    ensures ArqcFrom(family, w.Print(family, tail)) == Ok((w.Meaning(family), tail))
  {
    hide ByteFrom, CryptogramFrom, ArpcFrom;
    BytePrinted();
    CryptogramRoundTrip(w.cryptogram, w.arpc.Print(tail));
    ArpcRoundTrip(w.mode, w.arpc, tail);
  }

  // ------------------------------------------------ nothing else is accepted

  lemma CryptogramExact(rest: bytes) returns (w: CryptogramWire, tail: bytes)
    requires CryptogramFrom(rest).Ok?
    ensures w.Printable() && rest == w.Print(tail) && CryptogramFrom(rest).value == (w.Meaning(), tail)
  {
    hide DecodePanSeq, Hex, Padded, TakeFrom, ExpectFrom, U16From, U16Bytes, KeyFrom, IsKey, Described;
    var (keyType, r1) := TakeFrom(rest, 3).value;
    var (key, r2) := KeyFrom(Legacy, r1).value;
    KeyFromExact(Legacy, r1);
    var (panSeq, r3) := TakeFrom(r2, 8).value;
    var (atc, r4) := TakeFrom(r3, 2).value;
    var (un, r5) := TakeFrom(r4, 4).value;
    var (n, r6) := U16From(r5).value;
    var (txn, r7) := TakeFrom(r6, n).value;
    var r8 := ExpectFrom(r7, DELIMITER).value;
    var (arqc, r9) := TakeFrom(r8, 8).value;
    w := CryptogramWire(keyType, key.raw, panSeq, atc, un, txn, arqc);
    tail := r9;
    U16Exact(r5);
  }

  lemma ArpcExact(mode: byte, rest: bytes) returns (w: ArpcWire, tail: bytes)
    requires ArpcFrom(mode, rest).Ok? && IsMode(mode)
    ensures w.Printable(mode) && rest == w.Print(tail) && ArpcFrom(mode, rest).value == (w.Meaning(), tail)
  {
    hide Hex;
    if mode == 0x31 {
      var (code, r1) := TakeFrom(rest, 2).value;
      w, tail := Code(code), r1;
    } else if mode == 0x32 {
      var (status, r1) := TakeFrom(rest, 4).value;
      var (n, r2) := ByteFrom(r1).value;
      var (pad, r3) := TakeFrom(r2, n).value;
      w, tail := Status(status, pad), r3;
    } else {
      w, tail := NoArpc, rest;
    }
  }

  /** Conversely every accepted payload is a printed request: the grammar accepts nothing else. */
  lemma ArqcExact(family: Family, payload: bytes) returns (w: ArqcWire, tail: bytes)
    requires ArqcFrom(family, payload).Ok?
    ensures w.Printable(family) && payload == w.Print(family, tail)
    ensures ArqcFrom(family, payload).value == (w.Meaning(family), tail)
  {
    hide CryptogramFrom, ArpcFrom;
    var (mode, r1) := ByteFrom(payload).value;
    var (scheme, r2) := ByteFrom(r1).value;
    var (optionA, r3) := OptionFrom(family, r2).value;
    var (cryptogram, r4) := CryptogramFrom(r3).value;
    var c, after := CryptogramExact(r3);
    var a;
    a, tail := ArpcExact(mode, r4);
    w := ArqcWire(mode, scheme, if optionA then 0x41 else 0x42, c, a);
  }

  /** The transaction data sent to APC tells what was on the wire: two accepted requests, of either
      command, that forward the same data were sent with the same data. */
  lemma ForwardedDataInjective(familyA: Family, a: bytes, familyB: Family, b: bytes)
    returns (wa: ArqcWire, tailA: bytes, wb: ArqcWire, tailB: bytes)
    requires ArqcFrom(familyA, a).Ok? && ArqcFrom(familyB, b).Ok?
    requires ArqcFrom(familyA, a).value.0.cryptogram.txnData == ArqcFrom(familyB, b).value.0.cryptogram.txnData
    ensures wa.Printable(familyA) && a == wa.Print(familyA, tailA)
    ensures wb.Printable(familyB) && b == wb.Print(familyB, tailB)
    ensures wa.cryptogram.txn == wb.cryptogram.txn
  {
    wa, tailA := ArqcExact(familyA, a);
    wb, tailB := ArqcExact(familyB, b);
    ForwardedInjective(wa.cryptogram.txn, wb.cryptogram.txn);
    hide ArqcFrom, ArqcWire.Print, ArqcWire.Printable, Hex, Padded;
  }

  /** KW answers "68" exactly to a supported mode with one of the schemes APC cannot model. */
  lemma KwUnsupported(payload: bytes)
    ensures ArqcFrom(Kw, payload) == Err(Unsupported) <==>
              |payload| >= 2 && payload[0] in {0x30, 0x31, 0x32}
              && payload[1] in {0x34, 0x36, 0x37, 0x38, 0x39, 0x41, 0x42}
  {
    hide CryptogramFrom, ArpcFrom;
  }

  /** Whatever else KQ or KW refuses is bad data. */
  lemma ArqcMalformed(family: Family, payload: bytes)
    requires ArqcFrom(family, payload).Err?
    ensures ArqcFrom(family, payload).error == MalformedPayload
         || (family.Kw? && ArqcFrom(family, payload).error == Unsupported)
  {
    hide CryptogramFrom, ArpcFrom;
  }
}
