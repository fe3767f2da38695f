/** Key resolution (src/key_map.rs): the KCV index folded from a paged inventory, and the resolver. */
module KeyMaps {
  import opened Bytes
  import opened Keys

  datatype Attributes = Attributes(usage: bytes, algorithm: bytes)

  datatype KeySummary = KeySummary(arn: bytes, enabled: bool, attributes: Option<Attributes>, kcv: bytes)

  /** One answer of the paged `list_keys` call. */
  datatype ListReply = Page(keys: seq<KeySummary>, more: bool) | ApiFailure

  datatype KcvKey = KcvKey(usage: bytes, algorithm: bytes, kcv: bytes)

  // -------------------------------------------------------- order on ARNs

  /** Byte-wise lexicographic order, as `String` sorts. */
  predicate LexLeq(a: bytes, b: bytes) {
    a == [] || (b != [] && (a[0] < b[0] || (a[0] == b[0] && LexLeq(a[1..], b[1..]))))
  }

  lemma LexReflexive(a: bytes)
    ensures LexLeq(a, a)
  {
  }

  lemma LexTotal(a: bytes, b: bytes)
    ensures LexLeq(a, b) || LexLeq(b, a)
    ensures LexLeq(a, b) && LexLeq(b, a) ==> a == b
  {
    if a != [] && b != [] && a[0] == b[0] {
      LexTotal(a[1..], b[1..]);
      assert a == [a[0]] + a[1..] && b == [b[0]] + b[1..];
    }
  }

  lemma LexTransitive(a: bytes, b: bytes, c: bytes)
    requires LexLeq(a, b) && LexLeq(b, c)
    ensures LexLeq(a, c)
  {
    if a != [] && a[0] == b[0] == c[0] {
      LexTransitive(a[1..], b[1..], c[1..]);
    }
  }

  /** The first place where two strings differ, and the first one has the lower byte there. */
  predicate LowerAt(a: bytes, b: bytes, i: nat) {
    i < |a| && i < |b| && a[..i] == b[..i] && a[i] < b[i]
  }

  lemma LowerNext(a: bytes, b: bytes, i: nat)
    requires a != [] && b != [] && a[0] == b[0]
    ensures LowerAt(a, b, i + 1) <==> LowerAt(a[1..], b[1..], i)
    ensures !LowerAt(a, b, 0) && (a <= b <==> a[1..] <= b[1..])
  {
    assert a == [a[0]] + a[1..] && b == [b[0]] + b[1..];
    if i < |a| - 1 && i < |b| - 1 {
      assert a[..i + 1] == [a[0]] + a[1..][..i] && b[..i + 1] == [b[0]] + b[1..][..i];
      assert a[..i + 1][1..] == a[1..][..i] && b[..i + 1][1..] == b[1..][..i];
    }
  }

  /** The order of dictionaries: a prefix comes first, else the first byte that differs decides. */
  lemma {:induction false} LexMeans(a: bytes, b: bytes)
    ensures LexLeq(a, b) <==> a <= b || exists i: nat :: LowerAt(a, b, i)
  {
    if a != [] && b != [] && a[0] == b[0] {
      LexMeans(a[1..], b[1..]);
      LowerNext(a, b, 0);
      forall i: nat {
        LowerNext(a, b, i);
      }
      hide LowerAt;
      if i: nat :| LowerAt(a, b, i) {
        assert i > 0 && LowerAt(a[1..], b[1..], i - 1);
      }
      if i: nat :| LowerAt(a[1..], b[1..], i) {
        assert LowerAt(a, b, i + 1);
      }
    } else if a != [] && b != [] {
      Decided(a, b);
    } else {
      assert forall i: nat :: !LowerAt(a, b, i);
    }
  }

  lemma Decided(a: bytes, b: bytes)
    requires a != [] && b != [] && a[0] != b[0]
    ensures !(a <= b) && (a[0] < b[0] <==> exists i: nat :: LowerAt(a, b, i))
  {
    if a[0] < b[0] {
      assert LowerAt(a, b, 0);
    }
    forall i: nat | i > 0 && i < |a| && i < |b| ensures a[..i] != b[..i] {
      assert a[..i][0] == a[0] && b[..i][0] == b[0];
    }
  }

  ghost predicate IsLeast(arn: bytes, arns: seq<bytes>) {
    arn in arns && forall i | 0 <= i < |arns| :: LexLeq(arn, arns[i])
  }

  /** `arns.sort()` then the first of them. */
  function LeastOf(arns: seq<bytes>): (least: bytes)
    requires arns != []
    ensures IsLeast(least, arns)
  {
    LexReflexive(arns[0]);
    if |arns| == 1 then arns[0]
    else
      var rest := LeastOf(arns[1..]);
      LexTotal(arns[0], rest);
      LeastStep(arns, rest);
      if LexLeq(arns[0], rest) then arns[0] else rest
  }

  lemma LeastStep(arns: seq<bytes>, rest: bytes)
    requires |arns| > 1 && IsLeast(rest, arns[1..])
    ensures LexLeq(arns[0], rest) ==> forall i | 0 <= i < |arns| :: LexLeq(arns[0], arns[i])
  {
    LexReflexive(arns[0]);
    if LexLeq(arns[0], rest) {
      forall i | 0 <= i < |arns| ensures LexLeq(arns[0], arns[i]) {
        if i > 0 {
          LexTransitive(arns[0], rest, arns[1..][i - 1]);
        }
      }
    }
  }

  // ------------------------------------------------ search over the inventory

  /** The triple an inventory entry can be found under; none when it is unusable. */
  function IndexKey(s: KeySummary): Option<KcvKey> {
    if s.attributes.Some? && s.enabled
    then Some(KcvKey(s.attributes.value.usage, s.attributes.value.algorithm, Upper(s.kcv)))
    else None
  }

  /** ARNs of the usable entries with this triple, in listing order. */
  function Arns(inventory: seq<KeySummary>, k: KcvKey): seq<bytes> {
    if inventory == [] then []
    else
      var last := inventory[|inventory| - 1];
      Arns(inventory[..|inventory| - 1], k) + (if IndexKey(last) == Some(k) then [last.arn] else [])
  }

  lemma ArnsMembers(inventory: seq<KeySummary>, k: KcvKey, arn: bytes)
    ensures arn in Arns(inventory, k) <==>
            exists s <- inventory :: s.arn == arn && IndexKey(s) == Some(k)
  {
    if inventory != [] {
      var front := inventory[..|inventory| - 1];
      var last := inventory[|inventory| - 1];
      ArnsMembers(front, k, arn);
      assert inventory == front + [last];
    }
  }

  /** Reference: resolve a triple by searching the inventory. */
  function Search(inventory: seq<KeySummary>, k: KcvKey): Option<bytes> {
    if Arns(inventory, k) == [] then None else Some(LeastOf(Arns(inventory, k)))
  }

  /** The search means what the documentation says: the least ARN among the usable keys with the
      triple, and nothing when there is none. */
  lemma SearchMeaning(inventory: seq<KeySummary>, k: KcvKey, arn: bytes)
    ensures Search(inventory, k) == Some(arn) <==>
            && (exists s <- inventory :: s.arn == arn && IndexKey(s) == Some(k))
            && (forall s <- inventory :: IndexKey(s) == Some(k) ==> LexLeq(arn, s.arn))
    ensures Search(inventory, k) == None <==> forall s <- inventory :: IndexKey(s) != Some(k)
  {
    var arns := Arns(inventory, k);
    forall a: bytes
      ensures a in arns <==> exists s <- inventory :: s.arn == a && IndexKey(s) == Some(k)
    {
      ArnsMembers(inventory, k, a);
    }
    forall s <- inventory ensures IndexKey(s) == Some(k) ==> s.arn in arns {
    }
    if arns != [] {
      var least := LeastOf(arns);
      assert forall s <- inventory :: IndexKey(s) == Some(k) ==> LexLeq(least, s.arn);
      if arn in arns && (forall s <- inventory :: IndexKey(s) == Some(k) ==> LexLeq(arn, s.arn)) {
        LexTotal(arn, least);
      }
    }
  }

  /** Neither the paging nor the order of the listing matters. */
  lemma OrderIrrelevant(a: seq<KeySummary>, b: seq<KeySummary>, k: KcvKey)
    requires forall s :: s in a <==> s in b
    ensures Search(a, k) == Search(b, k)
  {
    var found := Search(a, k);
    if found.Some? {
      SearchMeaning(a, k, found.value);
      SearchMeaning(b, k, found.value);
    } else {
      SearchMeaning(a, k, []);
      SearchMeaning(b, k, []);
    }
  }

  // ---------------------------------------------------------------- resolver

  const ARN_PREFIX := Ascii("arn:aws:payment-cryptography")
  const ALIAS_PREFIX := Ascii("alias/")

  function AlgorithmName(algorithm: byte): bytes {
    if algorithm == 0x41 then Ascii("AES_128")                             // 'A'
    else if algorithm == 0x44 || algorithm == 0x54 then Ascii("TDES_2KEY") // 'D', 'T'
    else if algorithm == 0x48 then Ascii("HMAC_SHA256")                    // 'H'
    else if algorithm == 0x52 then Ascii("RSA_2048")                       // 'R'
    else []
  }

  function UsageSuffix(usage: Pair): Option<bytes> {
    match (usage[0] as char, usage[1] as char)
    case ('B', '0') => Some(Ascii("BASE_DERIVATION_KEY"))
    case ('C', '0') => Some(Ascii("CARD_VERIFICATION_KEY"))
    case ('D', '0') => Some(Ascii("SYMMETRIC_DATA_ENCRYPTION_KEY"))
    case ('E', '0') => Some(Ascii("EMV_MKEY_APP_CRYPTOGRAMS"))
    case ('E', '1') => Some(Ascii("EMV_MKEY_CONFIDENTIALITY"))
    case ('E', '2') => Some(Ascii("EMV_MKEY_INTEGRITY"))
    case ('E', '4') => Some(Ascii("EMV_MKEY_DYNAMIC_NUMBERS"))
    case ('E', '5') => Some(Ascii("EMV_MKEY_CARD_PERSONALIZATION"))
    case ('E', '6') => Some(Ascii("EMV_MKEY_OTHER"))
    case ('K', '0') => Some(Ascii("KEY_BLOCK_PROTECTION_KEY"))
    case ('K', '1') => Some(Ascii("KEY_BLOCK_PROTECTION_KEY"))
    case ('M', '1') => Some(Ascii("ISO_9797_1_MAC_KEY"))
    case ('M', '3') => Some(Ascii("ISO_9797_3_MAC_KEY"))
    case ('M', '6') => Some(Ascii("ISO_9797_5_CMAC_KEY"))
    case ('M', '7') => Some(Ascii("HMAC_KEY"))
    case ('P', '0') => Some(Ascii("PIN_ENCRYPTION_KEY"))
    case ('V', '1') => Some(Ascii("IBM3624_PIN_VERIFICATION_KEY"))
    case ('V', '2') => Some(Ascii("VISA_PIN_VERIFICATION_KEY"))
    case _ => None
  }

  function UsageName(usage: Pair): bytes {
    match UsageSuffix(usage)
    case None => []
    case Some(suffix) => Ascii("TR31_") + usage + Ascii("_") + suffix
  }

  function Tr31Name(first: char, second: char, name: string): bytes {
    Ascii("TR31_") + Code(first, second) + Ascii("_") + Ascii(name)
  }

  /** The names APC gives to the usages of ANSI X9.143, code by code. */
  lemma UsageNames()
    ensures UsageName(Code('B', '0')) == Tr31Name('B', '0', "BASE_DERIVATION_KEY")
    ensures UsageName(Code('C', '0')) == Tr31Name('C', '0', "CARD_VERIFICATION_KEY")
    ensures UsageName(Code('D', '0')) == Tr31Name('D', '0', "SYMMETRIC_DATA_ENCRYPTION_KEY")
    ensures UsageName(Code('E', '0')) == Tr31Name('E', '0', "EMV_MKEY_APP_CRYPTOGRAMS")
    ensures UsageName(Code('E', '1')) == Tr31Name('E', '1', "EMV_MKEY_CONFIDENTIALITY")
    ensures UsageName(Code('E', '2')) == Tr31Name('E', '2', "EMV_MKEY_INTEGRITY")
    ensures UsageName(Code('E', '4')) == Tr31Name('E', '4', "EMV_MKEY_DYNAMIC_NUMBERS")
    ensures UsageName(Code('E', '5')) == Tr31Name('E', '5', "EMV_MKEY_CARD_PERSONALIZATION")
    ensures UsageName(Code('E', '6')) == Tr31Name('E', '6', "EMV_MKEY_OTHER")
    ensures UsageName(Code('K', '0')) == Tr31Name('K', '0', "KEY_BLOCK_PROTECTION_KEY")
    ensures UsageName(Code('K', '1')) == Tr31Name('K', '1', "KEY_BLOCK_PROTECTION_KEY")
    ensures UsageName(Code('M', '1')) == Tr31Name('M', '1', "ISO_9797_1_MAC_KEY")
    ensures UsageName(Code('M', '3')) == Tr31Name('M', '3', "ISO_9797_3_MAC_KEY")
    ensures UsageName(Code('M', '6')) == Tr31Name('M', '6', "ISO_9797_5_CMAC_KEY")
    ensures UsageName(Code('M', '7')) == Tr31Name('M', '7', "HMAC_KEY")
    ensures UsageName(Code('P', '0')) == Tr31Name('P', '0', "PIN_ENCRYPTION_KEY")
    ensures UsageName(Code('V', '1')) == Tr31Name('V', '1', "IBM3624_PIN_VERIFICATION_KEY")
    ensures UsageName(Code('V', '2')) == Tr31Name('V', '2', "VISA_PIN_VERIFICATION_KEY")
  {
    hide Ascii;
  }

  /** No other usage code has a name. */
  lemma OtherUsages(usage: Pair)
    ensures UsageName(usage) == [] <==> UsageSuffix(usage).None?
    ensures UsageSuffix(usage).Some? <==>
              var second := usage[1] as char;
              match usage[0] as char
              case 'B' => second in {'0'}
              case 'C' => second in {'0'}
              case 'D' => second in {'0'}
              case 'E' => second in {'0', '1', '2', '4', '5', '6'}
              case 'K' => second in {'0', '1'}
              case 'M' => second in {'1', '3', '6', '7'}
              case 'P' => second in {'0'}
              case 'V' => second in {'1', '2'}
              case _ => false
  {
    hide Ascii;
  }

  /** The key algorithms APC is asked for, and none for any other letter. */
  lemma AlgorithmNames(algorithm: byte)
    ensures AlgorithmName(algorithm) ==
              match algorithm as char
              case 'A' => Ascii("AES_128")
              case 'D' => Ascii("TDES_2KEY")
              case 'T' => Ascii("TDES_2KEY")
              case 'H' => Ascii("HMAC_SHA256")
              case 'R' => Ascii("RSA_2048")
              case _ => []
  {
    hide Ascii;
  }

  /** Two known usage codes never share an APC usage. */
  lemma UsageNameInjective(a: Pair, b: Pair)
    requires UsageName(a) == UsageName(b) != []
    ensures a == b
  {
    hide UsageSuffix, Ascii;
    assert UsageName(a)[5..7] == a && UsageName(b)[5..7] == b;
  }

  /** The index entry a wrapped key block asks for. */
  function BlockKey(block: KeyBlockMeta): KcvKey
    requires block.kcv.Some?
  {
    KcvKey(UsageName(block.usage), AlgorithmName(block.algorithm), Upper(block.kcv.value))
  }

  function Resolve(labels: map<bytes, bytes>, index: map<KcvKey, bytes>, desc: KeyDescriptor): Result<bytes> {
    if ARN_PREFIX <= desc.raw || ALIAS_PREFIX <= desc.raw then Ok(desc.raw)
    else if desc.block.Some? && desc.block.value.kcv.Some? then
      var k := BlockKey(desc.block.value);
      if k in index then Ok(index[k]) else Err(KeyNotFound)
    else if desc.raw in labels then Ok(labels[desc.raw])
    else Err(KeyNotFound)
  }

  // ------------------------------------------------------------------ KeyMap

  /** The keys listed before the run of pages ends. */
  function Listed(replies: seq<ListReply>): seq<KeySummary> {
    if replies == [] || replies[0].ApiFailure? then []
    else replies[0].keys + Listed(replies[1..])
  }

  /** Every page but the last says there are more; the last one, or a failure, ends the listing. */
  predicate Paged(replies: seq<ListReply>) {
    replies != [] &&
    (if replies[0].ApiFailure? || !replies[0].more then |replies| == 1 else Paged(replies[1..]))
  }

  lemma PagedNext(replies: seq<ListReply>, n: nat)
    requires Paged(replies) && n < |replies|
    ensures replies[n].ApiFailure? || !replies[n].more ==> n + 1 == |replies|
    ensures replies[n].Page? && replies[n].more ==> n + 1 < |replies|
  {
    if n > 0 {
      PagedNext(replies[1..], n - 1);
    }
  }

  class KeyMap {
    const labels: map<bytes, bytes>
    var kcvIndex: map<KcvKey, bytes>

    constructor (mappings: map<bytes, bytes>)
      ensures labels == mappings && kcvIndex == map[]
    {
      labels := mappings;
      kcvIndex := map[];
    }

    function ResolveDescriptor(desc: KeyDescriptor): (r: Result<bytes>)
      reads this
    {
      Resolve(labels, kcvIndex, desc)
    }

    /** Fold the pages into the index. A failing page leaves the index as it was; otherwise each
        triple the inventory has resolves as the search does, and the others are unchanged. */
    method ScanApc(replies: seq<ListReply>)
      returns (r: Result<()>, scanned: nat, skipped: nat)
      requires Paged(replies)
      modifies this`kcvIndex
      ensures r.Ok? <==> replies[|replies| - 1].Page?
      ensures r.Err? ==> r.error == ApcError && kcvIndex == old(kcvIndex)
      ensures r.Ok? ==>
                var inventory := Listed(replies);
                && (forall k :: k in kcvIndex <==> k in old(kcvIndex) || Search(inventory, k).Some?)
                && (forall k <- kcvIndex :: kcvIndex[k] ==
                     match Search(inventory, k) { case Some(arn) => arn case None => old(kcvIndex)[k] })
      ensures r.Ok? ==> scanned == |Listed(replies)|
                        && skipped == |DisabledOf(Listed(replies))|
    {
      ListingStart(replies);
      hide *;
      var collisions: map<KcvKey, seq<bytes>> := map[];
      var page := 0;
      scanned, skipped := 0, 0;
      ghost var inventory: seq<KeySummary> := [];
      while true
        invariant page < |replies| && kcvIndex == old(kcvIndex)
        invariant Listed(replies) == inventory + Listed(replies[page..])
        invariant Grouped(collisions, inventory)
        invariant scanned == |inventory| && skipped == |DisabledOf(inventory)|
        decreases |replies| - page
      {
        PagedNext(replies, page);
        ListedNext(replies, page, inventory);
        if replies[page].ApiFailure? {
          return Err(ApcError), scanned, skipped;
        }
        var keys := replies[page].keys;
        assert inventory + keys[..0] == inventory;
        for i := 0 to |keys|
          invariant Grouped(collisions, inventory + keys[..i]) && kcvIndex == old(kcvIndex)
          invariant scanned == |inventory| + i && skipped == |DisabledOf(inventory + keys[..i])|
        {
          var summary := keys[i];
          GroupedNext(collisions, inventory, keys, i);
          scanned := scanned + 1;
          if summary.attributes.Some? {
            if !summary.enabled {
              skipped := skipped + 1;
            } else {
              var k := KcvKey(summary.attributes.value.usage, summary.attributes.value.algorithm, Upper(summary.kcv));
              collisions := collisions[k := (if k in collisions then collisions[k] else []) + [summary.arn]];
            }
          }
        }
        assert keys[..|keys|] == keys;
        inventory := inventory + keys;
        page := page + 1;
        if !replies[page - 1].more {
          break;
        }
      }
      GroupedSearch(collisions, inventory);
      InsertLeast(collisions);
      r := Ok(());
    }

    /** The order in which the collisions are visited is that of a hash map: any. */
    method InsertLeast(collisions: map<KcvKey, seq<bytes>>)
      requires forall k <- collisions :: collisions[k] != []
      modifies this`kcvIndex
      ensures forall k :: k in kcvIndex <==> k in old(kcvIndex) || k in collisions
      ensures forall k <- kcvIndex ::
                kcvIndex[k] == if k in collisions then LeastOf(collisions[k]) else old(kcvIndex)[k]
    {
      var todo := collisions.Keys;
      while todo != {}
        invariant todo <= collisions.Keys
        invariant forall k :: k in kcvIndex <==> k in old(kcvIndex) || k in collisions.Keys - todo
        invariant forall k <- kcvIndex ::
                    kcvIndex[k] == if k in collisions.Keys - todo then LeastOf(collisions[k]) else old(kcvIndex)[k]
        decreases todo
      {
        var k :| k in todo;
        kcvIndex := kcvIndex[k := LeastOf(collisions[k])];
        todo := todo - {k};
      }
    }
  }

  function DisabledOf(inventory: seq<KeySummary>): seq<KeySummary> {
    if inventory == [] then []
    else
      var last := inventory[|inventory| - 1];
      DisabledOf(inventory[..|inventory| - 1])
      + (if last.attributes.Some? && !last.enabled then [last] else [])
  }

  /** The working map of the scan: every triple met, with its ARNs in listing order. */
  ghost predicate Grouped(collisions: map<KcvKey, seq<bytes>>, inventory: seq<KeySummary>) {
    && (forall k :: k in collisions <==> Arns(inventory, k) != [])
    && (forall k <- collisions :: collisions[k] == Arns(inventory, k))
  }

  lemma ListingStart(replies: seq<ListReply>)
    requires Paged(replies)
    ensures |replies| > 0 && Listed(replies) == [] + Listed(replies[0..])
    ensures Grouped(map[], []) && DisabledOf([]) == []
  {
    assert replies[0..] == replies;
  }

  lemma ListedNext(replies: seq<ListReply>, n: nat, before: seq<KeySummary>)
    requires n < |replies|
    ensures replies[n].Page? ==>
              before + Listed(replies[n..]) == (before + replies[n].keys) + Listed(replies[n + 1..])
    ensures replies[n].Page? && n + 1 == |replies| ==>
              before + Listed(replies[n..]) == before + replies[n].keys
  {
    assert replies[n..][1..] == replies[n + 1..];
  }

  lemma GroupedSearch(collisions: map<KcvKey, seq<bytes>>, inventory: seq<KeySummary>)
    requires Grouped(collisions, inventory)
    ensures forall k <- collisions :: collisions[k] != []
    ensures forall k :: Search(inventory, k) ==
              if k in collisions then Some(LeastOf(Arns(inventory, k))) else None
    ensures forall k <- collisions :: collisions[k] == Arns(inventory, k)
  {
  }

  lemma GroupedNext(collisions: map<KcvKey, seq<bytes>>, inventory: seq<KeySummary>, keys: seq<KeySummary>, i: nat)
    requires i < |keys| && Grouped(collisions, inventory + keys[..i])
    ensures var k := IndexKey(keys[i]);
            Grouped(if k.None? then collisions
                    else collisions[k.value :=
                      (if k.value in collisions then collisions[k.value] else []) + [keys[i].arn]],
                    inventory + keys[..i + 1])
    ensures DisabledOf(inventory + keys[..i + 1])
         == DisabledOf(inventory + keys[..i])
            + (if keys[i].attributes.Some? && !keys[i].enabled then [keys[i]] else [])
  {
    var before, after := inventory + keys[..i], inventory + keys[..i + 1];
    assert after == before + [keys[i]];
    assert after[..|after| - 1] == before;
    assert forall k :: Arns(after, k) == Arns(before, k) + (if IndexKey(keys[i]) == Some(k) then [keys[i].arn] else []);
  }

  // ------------------------------------------- from the wire to the inventory

  /** What `ScanApc` establishes from an empty index. */
  ghost predicate Indexes(index: map<KcvKey, bytes>, inventory: seq<KeySummary>) {
    forall k :: Search(inventory, k) == if k in index then Some(index[k]) else None
  }

  /** Reference: resolve a descriptor with no index, searching the inventory itself. */
  function ResolveBySearch(labels: map<bytes, bytes>, inventory: seq<KeySummary>, desc: KeyDescriptor): Result<bytes> {
    if ARN_PREFIX <= desc.raw || ALIAS_PREFIX <= desc.raw then Ok(desc.raw)
    else if desc.block.Some? && desc.block.value.kcv.Some? then
      match Search(inventory, BlockKey(desc.block.value))
      case Some(arn) => Ok(arn)
      case None => Err(KeyNotFound)
    else if desc.raw in labels then Ok(labels[desc.raw])
    else Err(KeyNotFound)
  }

  /** The keys the resolver knows of: the listing, or none when a page failed and the proxy goes on
      without an index. */
  function Known(replies: seq<ListReply>): seq<KeySummary>
    requires replies != []
  {
    if replies[|replies| - 1].Page? then Listed(replies) else []
  }

  /** A key that a block with a check value may stand for: enabled, of the usage and the algorithm that
      the block's codes name, with its check value in either case. */
  ghost predicate Carries(s: KeySummary, block: KeyBlockMeta)
    requires block.kcv.Some?
  {
    && s.enabled && s.attributes.Some?
    && s.attributes.value.usage == UsageName(block.usage)
    && s.attributes.value.algorithm == AlgorithmName(block.algorithm)
    && SameIgnoringCase(s.kcv, block.kcv.value)
  }

  /** The least ARN among those keys. */
  ghost predicate LeastCarrier(inventory: seq<KeySummary>, block: KeyBlockMeta, arn: bytes)
    requires block.kcv.Some?
  {
    && (exists s <- inventory :: Carries(s, block) && s.arn == arn)
    && (forall s <- inventory :: Carries(s, block) ==> LexLeq(arn, s.arn))
  }

  /** What a key field stands for: itself if it is an APC identifier, the least ARN it can mean if it
      is a block with a check value, else what its label is mapped to. */
  ghost predicate ResolvesTo(labels: map<bytes, bytes>, inventory: seq<KeySummary>, desc: KeyDescriptor, arn: bytes) {
    if Ascii("arn:aws:payment-cryptography") <= desc.raw || Ascii("alias/") <= desc.raw then arn == desc.raw
    else if desc.block.Some? && desc.block.value.kcv.Some? then LeastCarrier(inventory, desc.block.value, arn)
    else desc.raw in labels && labels[desc.raw] == arn
  }

  lemma IndexKeyMeans(s: KeySummary, block: KeyBlockMeta)
    requires block.kcv.Some?
    ensures IndexKey(s) == Some(BlockKey(block)) <==> Carries(s, block)
  {
    hide UsageName, AlgorithmName;
  }

  lemma SearchCarries(inventory: seq<KeySummary>, block: KeyBlockMeta, arn: bytes)
    requires block.kcv.Some?
    ensures Search(inventory, BlockKey(block)) == Some(arn) <==> LeastCarrier(inventory, block, arn)
    ensures Search(inventory, BlockKey(block)) == None <==> forall s <- inventory :: !Carries(s, block)
  {
    SearchMeaning(inventory, BlockKey(block), arn);
    forall s <- inventory ensures IndexKey(s) == Some(BlockKey(block)) <==> Carries(s, block) {
      IndexKeyMeans(s, block);
    }
    hide Search, Carries, IndexKey, BlockKey, LexLeq;
  }

  lemma SearchResolves(labels: map<bytes, bytes>, inventory: seq<KeySummary>, desc: KeyDescriptor, arn: bytes)
    ensures ResolveBySearch(labels, inventory, desc) == Ok(arn) <==> ResolvesTo(labels, inventory, desc, arn)
    ensures ResolveBySearch(labels, inventory, desc).Err? ==>
              ResolveBySearch(labels, inventory, desc).error == KeyNotFound
  {
    if desc.block.Some? && desc.block.value.kcv.Some? {
      SearchCarries(inventory, desc.block.value, arn);
    }
    hide Search, BlockKey, LeastCarrier, Ascii;
  }

  /** Startup, then one key field resolved: the index built from the pages answers as a search of
      the listed keys would. */
  method StartAndResolve(mappings: map<bytes, bytes>, replies: seq<ListReply>, kind: KeyKind, rest: bytes)
    returns (r: Result<bytes>)
    requires Paged(replies)
    ensures r == match KeyField(kind, rest)
                 case Err(e) => Err(e)
                 case Ok((desc, _)) => ResolveBySearch(mappings, Known(replies), desc)
    ensures KeyField(kind, rest).Ok? ==>
              var desc := KeyField(kind, rest).value.0;
              && (r.Err? ==> r.error == KeyNotFound)
              && forall arn :: r == Ok(arn) <==> ResolvesTo(mappings, Known(replies), desc, arn)
  {
    var keyMap := new KeyMap(mappings);
    hide KeyField, Listed, Search, BlockKey;
    var scan, scanned, skipped := keyMap.ScanApc(replies);
    NoKeysFound();
    var field := KeyField(kind, rest);
    if field.Err? {
      return Err(field.error);
    }
    IndexIsSearch(mappings, keyMap.kcvIndex, Known(replies), field.value.0);
    hide ResolvesTo, ResolveBySearch;
    forall arn {
      SearchResolves(mappings, Known(replies), field.value.0, arn);
    }
    r := keyMap.ResolveDescriptor(field.value.0);
  }

  lemma NoKeysFound()
    ensures forall k :: Search([], k) == None
  {
  }

  /** The fast index agrees with the search, descriptor by descriptor. */
  lemma IndexIsSearch(labels: map<bytes, bytes>, index: map<KcvKey, bytes>, inventory: seq<KeySummary>,
                      desc: KeyDescriptor)
    requires Indexes(index, inventory)
    ensures Resolve(labels, index, desc) == ResolveBySearch(labels, inventory, desc)
  {
    hide Search, BlockKey;
    if desc.block.Some? && desc.block.value.kcv.Some? {
      assert Search(inventory, BlockKey(desc.block.value)).Some? <==> BlockKey(desc.block.value) in index;
    }
  }

  /** A descriptor with block metadata was read from a key block, so it looks like no identifier. */
  lemma BlockIsNoIdentifier(kind: KeyKind, rest: bytes)
    requires KeyField(kind, rest).Ok? && KeyField(kind, rest).value.0.block.Some?
    ensures var raw := KeyField(kind, rest).value.0.raw;
            raw[0] == S && !(ARN_PREFIX <= raw) && !(ALIAS_PREFIX <= raw)
  {
    hide Tr31Block;
    assert rest[0] == S;
    NotAPassthrough(KeyField(kind, rest).value.0.raw);
  }

  lemma NotAPassthrough(raw: bytes)
    requires raw != [] && raw[0] == S
    ensures !(ARN_PREFIX <= raw) && !(ALIAS_PREFIX <= raw)
  {
    assert ARN_PREFIX[0] == 0x61 && ALIAS_PREFIX[0] == 0x61;
  }

  /** Every accepted key block that carries a KCV, however its lengths are spelled, resolves to the
      least usable ARN with its triple, or not at all: whatever the label map holds, it is not
      consulted, and nothing passes through. */
  lemma WrappedKeyResolves(kind: KeyKind, rest: bytes, labels: map<bytes, bytes>,
                           index: map<KcvKey, bytes>, inventory: seq<KeySummary>, arn: bytes)
    requires Indexes(index, inventory) && KeyField(kind, rest).Ok?
    requires var block := KeyField(kind, rest).value.0.block; block.Some? && block.value.kcv.Some?
    ensures var desc := KeyField(kind, rest).value.0;
            var r := Resolve(labels, index, desc);
            && (r == Ok(arn) <==> LeastCarrier(inventory, desc.block.value, arn))
            && (r == Err(KeyNotFound) <==> forall s <- inventory :: !Carries(s, desc.block.value))
  {
    hide KeyField, Search, BlockKey, LeastCarrier, Carries;
    BlockIsNoIdentifier(kind, rest);
    var desc := KeyField(kind, rest).value.0;
    IndexIsSearch(labels, index, inventory, desc);
    SearchCarries(inventory, desc.block.value, arn);
  }

  /** Without a KCV an accepted block resolves by its exact wire form as a label, and only so. */
  lemma BlockWithoutKcv(kind: KeyKind, rest: bytes, labels: map<bytes, bytes>, index: map<KcvKey, bytes>)
    requires KeyField(kind, rest).Ok?
    requires var block := KeyField(kind, rest).value.0.block; block.Some? && block.value.kcv.None?
    ensures var raw := KeyField(kind, rest).value.0.raw;
            Resolve(labels, index, KeyField(kind, rest).value.0)
            == if raw in labels then Ok(labels[raw]) else Err(KeyNotFound)
  {
    hide KeyField;
    BlockIsNoIdentifier(kind, rest);
  }

  /** An unknown usage code with a KCV never falls through to the label path: an accepted block
      fails even when the label map holds that very block, unless the inventory lists a key with no
      usage. */
  lemma UnknownUsageFails(kind: KeyKind, rest: bytes, labels: map<bytes, bytes>,
                          index: map<KcvKey, bytes>, inventory: seq<KeySummary>)
    requires Indexes(index, inventory) && KeyField(kind, rest).Ok?
    requires var block := KeyField(kind, rest).value.0.block;
             block.Some? && block.value.kcv.Some? && UsageSuffix(block.value.usage).None?
    requires forall s <- inventory :: s.attributes.Some? ==> s.attributes.value.usage != []
    ensures Resolve(labels, index, KeyField(kind, rest).value.0) == Err(KeyNotFound)
  {
    WrappedKeyResolves(kind, rest, labels, index, inventory, []);
    hide KeyField, Search, Resolve;
  }

  // ------------------------------------------------ the printed blocks among them

  /** A printed block is accepted whatever follows it, and its metadata is what was printed. */
  lemma PrintedIsAccepted(kind: KeyKind, b: Tr31, tail: bytes)
    requires b.Printable()
    ensures KeyField(kind, b.Print() + tail).Ok?
    ensures KeyField(kind, b.Print() + tail).value.0 == KeyDescriptor(b.Print(), Some(b.Meta()))
  {
    Tr31RoundTrip(b, tail);
    assert (b.Print() + tail)[0] == S;
  }

  /** A printed block with a check value resolves to the least ARN among the keys it may stand for, and
      is answered KeyNotFound exactly when there is none; without one it is a label by its wire form. */
  lemma PrintedKeyResolves(kind: KeyKind, b: Tr31, tail: bytes, labels: map<bytes, bytes>,
                           index: map<KcvKey, bytes>, inventory: seq<KeySummary>, arn: bytes)
    requires b.Printable() && Indexes(index, inventory)
    ensures KeyField(kind, b.Print() + tail).Ok?
    ensures var block := KeyBlockMeta(b.usage, b.algorithm, KcvOf(b.opts));
            var r := Resolve(labels, index, KeyField(kind, b.Print() + tail).value.0);
            if block.kcv.Some? then
              && (r == Ok(arn) <==> LeastCarrier(inventory, block, arn))
              && (r == Err(KeyNotFound) <==> forall s <- inventory :: !Carries(s, block))
            else r == if b.Print() in labels then Ok(labels[b.Print()]) else Err(KeyNotFound)
  {
    PrintedIsAccepted(kind, b, tail);
    hide KeyField, Resolve, Search, Carries, LeastCarrier, Tr31.Print, KcvOf, ResolvesTo, ResolveBySearch;
    if KcvOf(b.opts).Some? {
      WrappedKeyResolves(kind, b.Print() + tail, labels, index, inventory, arn);
    } else {
      BlockWithoutKcv(kind, b.Print() + tail, labels, index);
    }
  }

  /** So a TDES PIN encryption key block finds APC's two-key TDES PIN encryption keys and no others. */
  lemma PinKeyResolves(kind: KeyKind, b: Tr31, tail: bytes, labels: map<bytes, bytes>,
                       index: map<KcvKey, bytes>, inventory: seq<KeySummary>, arn: bytes)
    requires b.Printable() && KcvOf(b.opts).Some? && Indexes(index, inventory)
    requires b.usage == Code('P', '0') && b.algorithm == 'T' as int
    ensures KeyField(kind, b.Print() + tail).Ok?
    ensures var kcv := KcvOf(b.opts).value;
            var name := Attributes(Tr31Name('P', '0', "PIN_ENCRYPTION_KEY"), Ascii("TDES_2KEY"));
            Resolve(labels, index, KeyField(kind, b.Print() + tail).value.0) == Ok(arn) <==>
              && (exists s <- inventory ::
                    s.enabled && s.attributes == Some(name) && SameIgnoringCase(s.kcv, kcv) && s.arn == arn)
              && (forall s <- inventory ::
                    s.enabled && s.attributes == Some(name) && SameIgnoringCase(s.kcv, kcv) ==> LexLeq(arn, s.arn))
  {
    hide KeyField, Resolve, LexLeq, Tr31.Print, UsageName, AlgorithmName, Tr31Name, Ascii, Code, SameIgnoringCase;
    PrintedKeyResolves(kind, b, tail, labels, index, inventory, arn);
    UsageNames();
    AlgorithmNames(b.algorithm);
  }

  /** APC identifiers pass through, whatever the labels and the inventory hold; any other text that is
      no key block is a label or nothing. */
  lemma TextResolves(raw: bytes, labels: map<bytes, bytes>, index: map<KcvKey, bytes>)
    ensures Resolve(labels, index, KeyDescriptor(raw, None)) ==
              if Ascii("arn:aws:payment-cryptography") <= raw || Ascii("alias/") <= raw then Ok(raw)
              else if raw in labels then Ok(labels[raw])
              else Err(KeyNotFound)
  {
    hide Ascii;
  }

  /** Acceptance is wider than printing: a KC block whose length is in lower case is found, under a
      count that promises many more blocks than there are. */
  lemma OtherSpellingAccepted(value: bytes, more: nat)
    requires |value| == 6 && ValidUtf8(value)
    ensures var area := KC + ([0x30, 0x63] + ([0x30, 0x30] + value));
            ScanKc(area, 1 + more) == Ok(Some(Upper(value))) && area[2..4] != FixedDigits(12, 2, 16)
  {
    var area := KC + ([0x30, 0x63] + ([0x30, 0x30] + value));
    assert area[..2] == KC && area[2..4] == [0x30, 0x63] && area[6..12] == value;
    var digits := [0x30, 0x63];
    assert digits[..1] == [0x30] && digits[..1][..0] == [];
    assert DigitsValue([0x30], 16) == Some(0) && DigitsValue(digits, 16) == Some(12);
    assert FixedDigits(12, 2, 16)[1] == Digit(12);
    hide Upper, ValidUtf8;
  }
}
