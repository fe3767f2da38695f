/** Key fields of src/handlers/thales/common.rs: variant-LMK keys, TR-31 key blocks, KSNs. */
module Keys {
  import opened Bytes
  import opened Reader

  /** Metadata of a wrapped key block, read from its header and optional blocks. */
  datatype KeyBlockMeta = KeyBlockMeta(usage: Pair, algorithm: byte, kcv: Option<bytes>)

  datatype KeyDescriptor = KeyDescriptor(raw: bytes, block: Option<KeyBlockMeta>)

  const S: byte := 0x53
  const U: byte := 0x55
  const T: byte := 0x54
  const KC: Pair := [0x4B, 0x43]
  const HEADER_LEN: nat := 16

  // ------------------------------------------------------- optional blocks

  /** What an optional block means to the walk: go on past it, or stop with an answer. */
  datatype Sight = Skip(len: nat) | Stop(answer: Result<Option<bytes>>)

  function SightAt(area: bytes, pos: nat): (r: Sight)
    ensures r.Skip? ==> 4 <= r.len && pos + r.len <= |area|
    ensures r.Stop? && r.answer.Err? ==> r.answer.error == MalformedPayload
  {
    if |area| < pos + 4 then Stop(Err(MalformedPayload))
    else
      match ParseUsize(area[pos + 2..pos + 4], 16)
      case None => Stop(Err(MalformedPayload))
      case Some(len) =>
        if len == 0 then Stop(Ok(None))
        else if len < 4 || |area| < pos + len then Stop(Err(MalformedPayload))
        else if area[pos..pos + 2] == KC then
          if len < 6 || !ValidUtf8(area[pos + 6..pos + len]) then Stop(Err(MalformedPayload))
          else Stop(Ok(Some(Upper(area[pos + 6..pos + len]))))
        else Skip(len)
  }

  /** Walk `count` optional blocks for the first "KC"; a zero length ends the walk. */
  function ScanKc(area: bytes, count: nat): (r: Result<Option<bytes>>)
    ensures r.Err? ==> r.error == MalformedPayload
    decreases count
  {
    if count == 0 then Ok(None)
    else
      match SightAt(area, 0)
      case Stop(answer) => answer
      case Skip(len) => ScanKc(area[len..], count - 1)
  }

  lemma SightFrom(area: bytes, pos: nat)
    requires pos <= |area|
    ensures SightAt(area[pos..], 0) == SightAt(area, pos)
    ensures SightAt(area, pos).Skip? ==> area[pos..][SightAt(area, pos).len..] == area[pos + SightAt(area, pos).len..]
  {
    hide ParseUsize, ValidUtf8, Upper;
    var here := area[pos..];
    if |here| >= 4 {
      assert here[..2] == area[pos..pos + 2] && here[2..4] == area[pos + 2..pos + 4];
      var len := ParseUsize(here[2..4], 16);
      if len.Some? && 6 <= len.value <= |here| {
        assert here[6..len.value] == area[pos + 6..pos + len.value];
      }
    }
  }

  /** The scan as the source runs it: a position advanced block by block. */
  method ScanKcOptionalBlock(area: bytes, count: nat) returns (r: Result<Option<bytes>>)
    ensures r == ScanKc(area, count)
  {
    hide SightAt;
    var pos: nat := 0;
    for i := 0 to count
      invariant pos <= |area| && ScanKc(area, count) == ScanKc(area[pos..], count - i)
    {
      SightFrom(area, pos);
      match SightAt(area, pos) {
        case Stop(answer) =>
          return answer;
        case Skip(len) =>
          pos := pos + len;
      }
    }
    return Ok(None);
  }

  // ----------------------------------------------------------- TR-31 blocks

  /** The block proper, `raw` being 'S' and exactly the declared number of bytes. */
  function BlockOf(raw: bytes): (r: Result<KeyDescriptor>)
    requires |raw| >= 1 + HEADER_LEN
    ensures r.Ok? ==> r.value.raw == raw && r.value.block.Some?
    ensures r.Err? ==> r.error == MalformedPayload
  {
    if !ValidUtf8(raw[6..8]) then Err(MalformedPayload)
    else
      match ParseUsize(raw[13..15], 10)
      case None => Err(MalformedPayload)
      case Some(count) =>
        var kcv :- ScanKc(raw[1 + HEADER_LEN..], count);
        Ok(KeyDescriptor(raw, Some(KeyBlockMeta(raw[6..8], raw[8], kcv))))
  }

  /** parse_tr31_block: descriptor and bytes consumed, the leading 'S' included. */
  function Tr31Block(rest: bytes): (r: Result<(KeyDescriptor, nat)>)
    ensures r.Ok? ==> 1 + HEADER_LEN <= r.value.1 <= |rest| && r.value.0.raw == rest[..r.value.1]
    ensures r.Err? ==> r.error == MalformedPayload
  {
    if |rest| < 1 + HEADER_LEN || rest[0] != S then Err(MalformedPayload)
    else
      match ParseUsize(rest[2..6], 10)
      case None => Err(MalformedPayload)
      case Some(len) =>
        if len < HEADER_LEN || |rest| < 1 + len then Err(MalformedPayload)
        else
          var desc :- BlockOf(rest[..1 + len]);
          Ok((desc, 1 + len))
  }

  /** An optional block as a producer writes it. `Extended` is the form whose two-digit length is
      "00"; whatever follows it is not walked. */
  datatype OptBlock = Plain(id: Pair, data: bytes) | Extended(id: Pair)

  predicate PrintableOpt(o: OptBlock) {
    o.Plain? ==> |o.data| + 4 < 256 && (o.id == KC ==> |o.data| >= 2 && ValidUtf8(o.data[2..]))
  }

  predicate AllPrintable(opts: seq<OptBlock>) {
    forall i | 0 <= i < |opts| :: PrintableOpt(opts[i])
  }

  function PrintOpts(opts: seq<OptBlock>, tail: bytes): bytes {
    if opts == [] then tail
    else
      match opts[0]
      case Plain(id, data) => id + (FixedDigits(|data| + 4, 2, 16) + (data + PrintOpts(opts[1..], tail)))
      case Extended(id) => id + (FixedDigits(0, 2, 16) + PrintOpts(opts[1..], tail))
  }

  /** The KCV a block list carries: the first KC's value after its two version characters,
      unless an extended-length block comes first. */
  function KcvOf(opts: seq<OptBlock>): Option<bytes>
    requires AllPrintable(opts)
  {
    if opts == [] || opts[0].Extended? then None
    else if opts[0].id == KC then Some(Upper(opts[0].data[2..]))
    else KcvOf(opts[1..])
  }

  lemma BlockPrinted(id: Pair, data: bytes, after: bytes, count: nat)
    requires 0 < count && PrintableOpt(Plain(id, data))
    ensures ScanKc(id + (FixedDigits(|data| + 4, 2, 16) + (data + after)), count)
         == if id == KC then Ok(Some(Upper(data[2..]))) else ScanKc(after, count - 1)
  {
    var n := |data| + 4;
    var digits := FixedDigits(n, 2, 16);
    var area := id + (digits + (data + after));
    Widths();
    ParseFixedDigits(n, 2, 16);
    hide ParseUsize, FixedDigits, ValidUtf8, Upper, Power;
    assert area == (id + digits) + data + after;
    assert area[..2] == id && area[2..4] == digits && area[n..] == after;
    if id == KC {
      assert area[6..n] == data[2..];
    }
  }

  lemma ExtendedPrinted(id: Pair, after: bytes, count: nat)
    requires 0 < count
    ensures ScanKc(id + (FixedDigits(0, 2, 16) + after), count) == Ok(None)
  {
    var digits := FixedDigits(0, 2, 16);
    Widths();
    ParseFixedDigits(0, 2, 16);
    hide ParseUsize, FixedDigits, ValidUtf8, Upper, Power;
    var area := id + (digits + after);
    assert area[2..4] == digits;
  }

  lemma {:induction false} ScanPrinted(opts: seq<OptBlock>, tail: bytes)
    requires AllPrintable(opts)
    ensures ScanKc(PrintOpts(opts, tail), |opts|) == Ok(KcvOf(opts))
  {
    assert ScanKc(tail, 0) == Ok(None);
    hide ScanKc, FixedDigits, Upper, PrintableOpt;
    if opts != [] {
      var after := PrintOpts(opts[1..], tail);
      match opts[0]
      case Plain(id, data) =>
        BlockPrinted(id, data, after, |opts|);
        if id != KC {
          ScanPrinted(opts[1..], tail);
        }
      case Extended(id) => ExtendedPrinted(id, after, |opts|);
    }
  }

  /** A TR-31 block as a producer writes it. */
  datatype Tr31 = Tr31(
    version: byte, usage: Pair, algorithm: byte, mode: byte, keyVersion: Pair, exportability: byte,
    reserved: Pair, opts: seq<OptBlock>, body: bytes)
  {
    function Area(): bytes {
      PrintOpts(opts, body)
    }

    predicate Printable() {
      && AllPrintable(opts) && |opts| < 100
      && HEADER_LEN + |Area()| < 10000 && ValidUtf8(usage)
    }

    function Header(): (h: bytes)
      ensures |h| == HEADER_LEN
    {
      [version] + FixedDigits(HEADER_LEN + |Area()|, 4, 10) + usage + [algorithm] + [mode]
      + keyVersion + [exportability] + FixedDigits(|opts|, 2, 10) + reserved
    }

    function Print(): bytes {
      [S] + Header() + Area()
    }

    function Meta(): KeyBlockMeta
      requires Printable()
    {
      KeyBlockMeta(usage, algorithm, KcvOf(opts))
    }
  }

  lemma HeaderFields(b: Tr31, tail: bytes)
    ensures var p := b.Print() + tail;
            && p[0] == S && p[2..6] == FixedDigits(HEADER_LEN + |b.Area()|, 4, 10)
            && p[6..8] == b.usage && p[8] == b.algorithm
            && p[13..15] == FixedDigits(|b.opts|, 2, 10)
  {
    var p, h := b.Print() + tail, b.Header();
    assert p[1..17] == h;
    assert p[2..6] == h[1..5] && p[6..8] == h[5..7] && p[13..15] == h[12..14] && p[8] == h[7];
  }

  lemma BlockOfPrinted(b: Tr31)
    requires b.Printable()
    ensures BlockOf(b.Print()) == Ok(KeyDescriptor(b.Print(), Some(b.Meta())))
  {
    var raw := b.Print();
    HeaderFields(b, []);
    assert raw + [] == raw;
    Widths();
    ParseFixedDigits(|b.opts|, 2, 10);
    ScanPrinted(b.opts, b.body);
    assert raw[1 + HEADER_LEN..] == b.Area();
    hide ParseUsize, FixedDigits, ValidUtf8, ScanKc, Tr31.Area, Tr31.Print, KcvOf, Tr31.Header, Power;
  }

  /** Whatever follows it, a printed block parses to its usage, algorithm and first KCV, with the
      printed bytes as `raw` and one more byte consumed than the length it declares. */
  lemma Tr31RoundTrip(b: Tr31, tail: bytes)
    requires b.Printable()
    ensures Tr31Block(b.Print() + tail)
         == Ok((KeyDescriptor(b.Print(), Some(b.Meta())), 1 + HEADER_LEN + |b.Area()|))
  {
    HeaderFields(b, tail);
    Widths();
    ParseFixedDigits(HEADER_LEN + |b.Area()|, 4, 10);
    BlockOfPrinted(b);
    assert |b.Print()| == 1 + HEADER_LEN + |b.Area()|;
    Delimited(b.Print(), tail);
    hide *;
  }

  /** The declared length delimits the block, whatever stands behind it. */
  lemma Delimited(raw: bytes, tail: bytes)
    requires |raw| >= 1 + HEADER_LEN && raw[0] == S
    requires ParseUsize((raw + tail)[2..6], 10) == Some(|raw| - 1) && BlockOf(raw).Ok?
    ensures Tr31Block(raw + tail) == Ok((BlockOf(raw).value, |raw|))
  {
    hide BlockOf, ParseUsize;
    assert (raw + tail)[..|raw|] == raw;
  }

  // -------------------------------------------------------------- key fields

  /** Which of parse_legacy_key, parse_bdk and parse_key_32 reads the field. */
  datatype KeyKind = Legacy | Bdk | Key32

  function VariantLength(kind: KeyKind, first: byte): (n: nat)
    ensures n >= 16
  {
    if first == U then 33
    else if first == T && kind != Bdk then 49
    else if kind == Legacy then 16
    else 32
  }

  function KeyField(kind: KeyKind, rest: bytes): (r: Result<(KeyDescriptor, nat)>)
    ensures r.Ok? ==> 16 <= r.value.1 <= |rest| && r.value.0.raw == rest[..r.value.1]
    ensures r.Err? ==> r.error == MalformedPayload
  {
    if rest == [] then Err(MalformedPayload)
    else if rest[0] == S then Tr31Block(rest)
    else
      var n := VariantLength(kind, rest[0]);
      if |rest| < n then Err(MalformedPayload) else Ok((KeyDescriptor(rest[..n], None), n))
  }

  function KeyParser(kind: KeyKind): Sub<KeyDescriptor> {
    (rest: bytes) => KeyField(kind, rest)
  }

  function KeyFrom(kind: KeyKind, rest: bytes): (r: Result<(KeyDescriptor, bytes)>)
    ensures r.Err? ==> r.error == MalformedPayload
  {
    SubFrom(KeyParser(kind), rest)
  }

  /** `parse_with` around a key parser. */
  method ReadKey(c: FieldReader, kind: KeyKind) returns (r: Result<KeyDescriptor>)
    requires c.Valid()
    modifies c`pos
    ensures c.Valid() && r == Value(KeyFrom(kind, old(c.Rest())))
    ensures r.Ok? ==> c.Rest() == KeyFrom(kind, old(c.Rest())).value.1
  {
    r := c.ParseWith(KeyParser(kind));
  }

  /** `raw` is one whole key field of this kind. */
  predicate IsKey(kind: KeyKind, raw: bytes) {
    KeyField(kind, raw).Ok? && KeyField(kind, raw).value.1 == |raw|
  }

  function Described(kind: KeyKind, raw: bytes): KeyDescriptor
    requires IsKey(kind, raw)
  {
    KeyField(kind, raw).value.0
  }

  /** How long a variant-LMK key is, prefix included: 'U' and 32 digits, 'T' and 48 (but for a BDK), or
      no prefix and as many as the field has by default. */
  lemma VariantKeys(kind: KeyKind, raw: bytes)
    requires raw != [] && raw[0] != 'S' as int
    ensures IsKey(kind, raw) <==>
              |raw| == if raw[0] == 'U' as int then 1 + 32
                       else if raw[0] == 'T' as int && !kind.Bdk? then 1 + 48
                       else if kind.Legacy? then 16 else 32
    ensures IsKey(kind, raw) ==> Described(kind, raw) == KeyDescriptor(raw, None)
  {
    assert raw[..|raw|] == raw;
  }

  /** A key field says itself where it ends: nothing after it changes how it is read. */
  lemma KeyAppend(kind: KeyKind, raw: bytes, tail: bytes)
    requires IsKey(kind, raw)
    ensures KeyField(kind, raw + tail) == Ok((Described(kind, raw), |raw|))
    ensures KeyFrom(kind, raw + tail) == Ok((Described(kind, raw), tail))
  {
    var p := raw + tail;
    assert p[..|raw|] == raw && p[|raw|..] == tail;
    assert p[0] == raw[0];
    if raw[0] == S {
      assert p[2..6] == raw[2..6];
      assert raw[..|raw|] == raw;
    } else {
      assert raw[..|raw|] == raw;
    }
  }

  lemma KeyPrinted()
    ensures forall kind, raw: bytes, tail: bytes {:trigger KeyFrom(kind, raw + tail)} ::
              IsKey(kind, raw) ==> KeyFrom(kind, raw + tail) == Ok((Described(kind, raw), tail))
  {
    forall kind, raw: bytes, tail: bytes | IsKey(kind, raw)
      ensures KeyFrom(kind, raw + tail) == Ok((Described(kind, raw), tail))
    {
      KeyAppend(kind, raw, tail);
    }
  }

  /** And conversely: what a key parser took off the payload is by itself such a field. */
  lemma KeyExact(kind: KeyKind, rest: bytes)
    requires KeyField(kind, rest).Ok?
    ensures var (desc, n) := KeyField(kind, rest).value;
            IsKey(kind, rest[..n]) && Described(kind, rest[..n]) == desc
            && rest[..n] == desc.raw && rest == desc.raw + rest[n..]
  {
    var n := KeyField(kind, rest).value.1;
    if rest[0] == S {
      assert rest[..n][2..6] == rest[2..6];
      assert rest[..n][..n] == rest[..n];
    } else {
      assert rest[..n][..n] == rest[..n];
    }
  }

  lemma KeyFromExact(kind: KeyKind, rest: bytes)
    requires KeyFrom(kind, rest).Ok?
    ensures var (desc, after) := KeyFrom(kind, rest).value;
            IsKey(kind, desc.raw) && Described(kind, desc.raw) == desc && rest == desc.raw + after
  {
    KeyExact(kind, rest);
  }

  lemma KeyStable(kind: KeyKind, rest: bytes, more: bytes)
    requires KeyFrom(kind, rest).Ok?
    ensures KeyFrom(kind, rest + more) == Ok((KeyFrom(kind, rest).value.0, KeyFrom(kind, rest).value.1 + more))
  {
    var (desc, after) := KeyFrom(kind, rest).value;
    KeyFromExact(kind, rest);
    KeyAppend(kind, desc.raw, after + more);
    assert rest + more == desc.raw + (after + more);
  }

  /** A printed key block is a whole key field of every kind, with the metadata that was printed. */
  lemma BlockKeys(kind: KeyKind, b: Tr31)
    requires b.Printable()
    ensures IsKey(kind, b.Print())
    ensures Described(kind, b.Print())
         == KeyDescriptor(b.Print(), Some(KeyBlockMeta(b.usage, b.algorithm, KcvOf(b.opts))))
  {
    Tr31RoundTrip(b, []);
    assert b.Print() + [] == b.Print();
    assert b.Print()[0] == 'S' as int;
    hide Tr31Block, KcvOf;
  }

  // -------------------------------------------------------------------- KSNs

  datatype Derivation = Tdes2Key | Aes128

  /** parse_ksn_with_descriptor: one ignored character, the KSN length in two hex digits, the KSN. */
  function KsnField(rest: bytes): (r: Result<((bytes, Derivation), nat)>)
    ensures r.Ok? ==> 23 <= r.value.1 <= |rest|
    ensures r.Err? ==> r.error == MalformedPayload
  {
    if |rest| < 3 then Err(MalformedPayload)
    else
      match ParseUsize(rest[1..3], 16)
      case None => Err(MalformedPayload)
      case Some(n) =>
        if |rest| < 3 + n || (n != 20 && n != 24) then Err(MalformedPayload)
        else Ok(((rest[3..3 + n], if n == 20 then Tdes2Key else Aes128), 3 + n))
  }

  function KsnFrom(rest: bytes): (r: Result<((bytes, Derivation), bytes)>)
    ensures r.Err? ==> r.error == MalformedPayload
  {
    SubFrom(KsnField, rest)
  }

  /** The KSN widths there are, and the derivation each one selects. */
  predicate KsnPrintable(digits: bytes, ksn: bytes) {
    Spells(digits, 2, 16, |ksn|) && (|ksn| == 20 || |ksn| == 24)
  }

  function DerivationOf(ksn: bytes): Derivation {
    if |ksn| == 20 then Tdes2Key else Aes128
  }

  lemma KsnPrinted(kind: byte, digits: bytes, ksn: bytes, tail: bytes)
    requires KsnPrintable(digits, ksn)
    ensures KsnFrom([kind] + (digits + (ksn + tail))) == Ok(((ksn, DerivationOf(ksn)), tail))
  {
    var p := [kind] + (digits + (ksn + tail));
    assert p[1..3] == digits && p[3..3 + |ksn|] == ksn && p[3 + |ksn|..] == tail;
  }

  lemma KsnExact(rest: bytes) returns (kind: byte, digits: bytes)
    requires KsnFrom(rest).Ok?
    ensures var ((ksn, deriv), tail) := KsnFrom(rest).value;
            && KsnPrintable(digits, ksn) && deriv == DerivationOf(ksn)
            && rest == [kind] + (digits + (ksn + tail))
  {
    kind, digits := rest[0], rest[1..3];
    var n := ParseUsize(digits, 16).value;
    assert rest[3..] == rest[3..3 + n] + rest[3 + n..];
  }
}
