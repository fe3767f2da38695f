/** The dispatch table (Registry in src/handlers/mod.rs) built from the handlers of the payShield module. */
module Registry {
  import opened Bytes

  datatype Handler =
    | PinHandler
    | PinChangeHandler
    | DieboldPinHandler
    | RandomPinHandler
    | DukptPinVerifyHandler
    | DukptPinVerifyAesHandler
    | PinVerifyNonDukptHandler
    | EncryptDecryptHandler
    | InternationalEncryptHandler
    | DukptMacHandler
    | IssuerScriptMacHandler
    | CapArqcHandler
    | EmvDecryptHandler
    | KqArqcHandler
    | KwArqcHandler
    | UnionPayArqcHandler
    | HmacHandler
    | MacHandler
    | MacTranslateHandler
    | LegacyMacHandler
    | CvvHandler
    | DynamicCvvHandler
    | HeartbeatHandler
    | NotAvailableHandler

  /** The module's handlers in the order they are registered. */
  const HANDLERS: seq<Handler> := [
    PinHandler, PinChangeHandler, DieboldPinHandler, RandomPinHandler, DukptPinVerifyHandler,
    DukptPinVerifyAesHandler, PinVerifyNonDukptHandler, EncryptDecryptHandler, InternationalEncryptHandler,
    DukptMacHandler, IssuerScriptMacHandler, CapArqcHandler, EmvDecryptHandler, KqArqcHandler, KwArqcHandler,
    UnionPayArqcHandler, HmacHandler, MacHandler, MacTranslateHandler, LegacyMacHandler, CvvHandler,
    DynamicCvvHandler, HeartbeatHandler]

  /** A command code by its two characters. */
  type Name = (char, char)

  /** Commands with no APC path, in groups of related codes. */
  datatype Group =
    | PinPath | LmkPin | Encryption                        // PIN and data commands APC has no operation for
    | KeysA | KeysBcd | KeysFg | KeysHijk | KeysLm         // key management, by first letter
    | Rtks | As2805                                        // transaction key schemes
    | AdminNqr | AdminStuvw                                // administration

  /** The codes of the not-available stub. */
  function Unavailable(g: Group): seq<Name> {
    match g
    case PinPath =>
      [('A', 'Q'), ('B', 'A'), ('B', 'C'), ('B', 'E'), ('B', 'K'), ('C', 'G'), ('D', 'E'), ('D', 'G'), ('E', 'E'),
       ('E', 'G'), ('F', 'W'), ('J', 'C'), ('J', 'E'), ('J', 'G')]
    case LmkPin =>
      [('L', 'E'), ('L', 'G'), ('L', 'O'), ('N', 'G')]
    case Encryption =>
      [('E', 'M'), ('E', 'U'), ('E', 'W'), ('E', 'Y'), ('G', 'M')]
    case KeysA =>
      [('A', '0'), ('A', '4'), ('A', '6'), ('A', '8'), ('A', 'A'), ('A', 'C'), ('A', 'E'), ('A', 'G'), ('A', 'K'),
       ('A', 'M'), ('A', 'S'), ('A', 'U'), ('A', 'W')]
    case KeysBcd =>
      [('B', 'I'), ('B', '0'), ('B', '8'), ('B', 'G'), ('B', 'U'), ('B', 'W'), ('B', 'S'), ('B', 'Y'), ('C', 'S'),
       ('D', 'W'), ('D', 'Y')]
    case KeysFg =>
      [('F', 'A'), ('F', 'C'), ('F', 'E'), ('F', 'G'), ('F', 'K'), ('G', 'C'), ('G', 'E'), ('G', 'G'), ('G', 'K'),
       ('G', 'Y')]
    case KeysHijk =>
      [('H', 'A'), ('H', 'C'), ('H', 'Y'), ('I', 'A'), ('J', '6'), ('J', '8'), ('J', 'K'), ('K', '8'), ('K', 'A'),
       ('K', 'C'), ('K', 'G'), ('K', 'I')]
    case KeysLm =>
      [('L', '0'), ('L', 'U'), ('L', 'W'), ('M', 'G'), ('M', 'I')]
    case Rtks =>
      [('R', 'I'), ('R', 'K'), ('R', 'M'), ('R', 'O'), ('R', 'Q'), ('R', 'S'), ('R', 'U'), ('R', 'W')]
    case As2805 =>
      [('H', 'I'), ('H', 'K'), ('H', 'M'), ('H', 'O'), ('H', 'Q'), ('H', 'S'), ('H', 'U'), ('H', 'W')]
    case AdminNqr =>
      [('N', '0'), ('N', 'C'), ('N', 'I'), ('N', 'O'), ('Q', '0'), ('Q', '6'), ('Q', '8'), ('Q', 'H'), ('R', 'A')]
    case AdminStuvw =>
      [('S', 'E'), ('T', 'G'), ('T', 'Y'), ('U', 'I'), ('V', 'W'), ('V', 'Y'), ('W', 'C'), ('W', 'Q'), ('W', 'W'),
       ('W', 'Y')]
  }

  /** `command_codes` of each handler. */
  function CommandCodes(h: Handler): seq<Name> {
    match h
    case PinHandler => [('C', 'A'), ('C', 'C'), ('B', 'Q'), ('G', '0')]
    case PinChangeHandler => [('C', 'U'), ('D', 'U')]
    case DieboldPinHandler => [('C', 'E'), ('G', 'A')]
    case RandomPinHandler => [('J', 'A')]
    case DukptPinVerifyHandler => [('C', 'K'), ('C', 'M'), ('C', 'O'), ('C', 'Q')]
    case DukptPinVerifyAesHandler => [('G', 'O'), ('G', 'Q'), ('G', 'S'), ('G', 'U')]
    case PinVerifyNonDukptHandler => [('D', 'A'), ('D', 'C'), ('E', 'A'), ('E', 'C')]
    case EncryptDecryptHandler => [('H', 'E'), ('H', 'G')]
    case InternationalEncryptHandler => [('M', '0'), ('M', '2'), ('M', '4')]
    case DukptMacHandler => [('G', 'W')]
    case IssuerScriptMacHandler => [('J', 'U'), ('K', 'U'), ('K', 'Y')]
    case CapArqcHandler => [('K', '2'), ('K', 'S')]
    case EmvDecryptHandler => [('K', '0')]
    case KqArqcHandler => [('K', 'Q')]
    case KwArqcHandler => [('K', 'W')]
    case UnionPayArqcHandler => [('J', 'S')]
    case HmacHandler => [('L', 'Q'), ('L', 'S')]
    case MacHandler => [('C', '2'), ('C', '4'), ('M', '6'), ('M', '8')]
    case MacTranslateHandler => [('M', 'Y')]
    case LegacyMacHandler =>
      [('M', 'A'), ('M', 'C'), ('M', 'E'), ('M', 'K'), ('M', 'M'), ('M', 'O'), ('M', 'U'), ('M', 'W'),
       ('M', 'Q'), ('M', 'S')]
    case CvvHandler => [('C', 'W'), ('C', 'Y'), ('N', 'Y'), ('R', 'Y')]
    case DynamicCvvHandler => [('Q', 'Y'), ('P', 'M')]
    case HeartbeatHandler => [('B', '2')]
    case NotAvailableHandler =>
      Unavailable(PinPath) + Unavailable(LmkPin) + Unavailable(Encryption) + Unavailable(KeysA) + Unavailable(KeysBcd)
      + Unavailable(KeysFg) + Unavailable(KeysHijk) + Unavailable(KeysLm) + Unavailable(Rtks) + Unavailable(As2805)
      + Unavailable(AdminNqr) + Unavailable(AdminStuvw)
  }

  type Table = map<Pair, Handler>

  /** `as_bytes` */
  function Key(code: Name): (key: Pair)
    ensures code.0 <= '~' && code.1 <= '~' ==> key == [code.0 as int, code.1 as int]
  {
    [CharByte(code.0), CharByte(code.1)]
  }

  /** A command code as it comes in a frame is one of these. */
  ghost predicate Lists(codes: seq<Name>, code: Pair) {
    exists c <- codes :: Key(c) == code
  }

  /** A table with a handler entered under its codes, over whatever was there. */
  function Entered(table: Table, codes: seq<Name>, h: Handler): Table
    decreases |codes|
  {
    if codes == [] then table else Entered(table[Key(codes[0]) := h], codes[1..], h)
  }

  /** A table with a whole list of handlers entered, one after the other. */
  function Assembled(table: Table, handlers: seq<Handler>): Table
    decreases |handlers|
  {
    if handlers == [] then table
    else Assembled(Entered(table, CommandCodes(handlers[0]), handlers[0]), handlers[1..])
  }

  /** The table of a proxy that serves a module: its handlers, and the not-available stub last. */
  function TableFor(handlers: seq<Handler>): Table {
    Assembled(map[], handlers + [NotAvailableHandler])
  }

  /** `Registry::get` */
  function Lookup(table: Table, code: Pair): Option<Handler> {
    if code in table then Some(table[code]) else None
  }

  class Registry {
    var entries: Table

    constructor ()
      ensures entries == map[]
    {
      entries := map[];
    }

    method Register(h: Handler)
      modifies this
      ensures entries == Entered(old(entries), CommandCodes(h), h)
    {
      var codes := CommandCodes(h);
      for i := 0 to |codes|
        invariant Entered(entries, codes[i..], h) == Entered(old(entries), codes, h)
      {
        assert codes[i..][1..] == codes[i + 1..];
        entries := entries[Key(codes[i]) := h];
      }
    }

    /** `for_module` */
    constructor ForModule(handlers: seq<Handler>)
      ensures entries == TableFor(handlers)
    {
      entries := map[];
      new;
      var all := handlers + [NotAvailableHandler];
      for i := 0 to |all|
        invariant Assembled(entries, all[i..]) == Assembled(map[], all)
      {
        assert all[i..][1..] == all[i + 1..];
        Register(all[i]);
      }
    }
  }

  // ------------------------------------------------- no code has two handlers

  /** Whose list a code can be in, told by its two characters. */
  function Owner(code: Name): Handler {
    var second := code.1;
    match code.0
    case 'B' => if second == 'Q' then PinHandler else if second == '2' then HeartbeatHandler else NotAvailableHandler
    case 'C' =>
      if second == '2' || second == '4' then MacHandler
      else if second == 'A' || second == 'C' then PinHandler
      else if second == 'E' then DieboldPinHandler
      else if second == 'K' || second == 'M' || second == 'O' || second == 'Q' then DukptPinVerifyHandler
      else if second == 'U' then PinChangeHandler
      else if second == 'W' || second == 'Y' then CvvHandler
      else NotAvailableHandler
    case 'D' =>
      if second == 'U' then PinChangeHandler
      else if second == 'A' || second == 'C' then PinVerifyNonDukptHandler
      else NotAvailableHandler
    case 'E' => if second == 'A' || second == 'C' then PinVerifyNonDukptHandler else NotAvailableHandler
    case 'G' =>
      if second == '0' then PinHandler
      else if second == 'A' then DieboldPinHandler
      else if second == 'O' || second == 'Q' || second == 'S' || second == 'U' then DukptPinVerifyAesHandler
      else if second == 'W' then DukptMacHandler
      else NotAvailableHandler
    case 'H' => if second == 'E' || second == 'G' then EncryptDecryptHandler else NotAvailableHandler
    case 'J' =>
      if second == 'A' then RandomPinHandler
      else if second == 'U' then IssuerScriptMacHandler
      else if second == 'S' then UnionPayArqcHandler
      else NotAvailableHandler
    case 'K' =>
      if second == 'U' || second == 'Y' then IssuerScriptMacHandler
      else if second == '2' || second == 'S' then CapArqcHandler
      else if second == '0' then EmvDecryptHandler
      else if second == 'Q' then KqArqcHandler
      else if second == 'W' then KwArqcHandler
      else NotAvailableHandler
    case 'L' => if second == 'Q' || second == 'S' then HmacHandler else NotAvailableHandler
    case 'M' =>
      if second == '0' || second == '2' || second == '4' then InternationalEncryptHandler
      else if second == '6' || second == '8' then MacHandler
      else if second == 'Y' then MacTranslateHandler
      else if second == 'A' || second == 'C' || second == 'E' || second == 'K' || second == 'M' || second == 'O'
              || second == 'Q' || second == 'S' || second == 'U' || second == 'W' then LegacyMacHandler
      else NotAvailableHandler
    case 'P' => DynamicCvvHandler
    case 'Q' => if second == 'Y' then DynamicCvvHandler else NotAvailableHandler
    case 'N' => if second == 'Y' then CvvHandler else NotAvailableHandler
    case 'R' => if second == 'Y' then CvvHandler else NotAvailableHandler
    case _ => NotAvailableHandler
  }

  /** A code in ASCII that belongs to this handler. */
  predicate Owned(code: Name, h: Handler) {
    code.0 <= '~' && code.1 <= '~' && Owner(code) == h
  }

  /** The same codes sorted: for each first character the second ones. */
  function StubSeconds(first: char): string {
    match first
    case 'A' => "0468ACEGKMQSUW"
    case 'B' => "08ACEGIKSUWY"
    case 'C' => "GS"
    case 'D' => "EGWY"
    case 'E' => "EGMUWY"
    case 'F' => "ACEGKW"
    case 'G' => "CEGKMY"
    case 'H' => "ACIKMOQSUWY"
    case 'I' => "A"
    case 'J' => "68CEGK"
    case 'K' => "8ACGI"
    case 'L' => "0EGOUW"
    case 'M' => "GI"
    case 'N' => "0CGIO"
    case 'Q' => "068H"
    case 'R' => "AIKMOQSUW"
    case 'S' => "E"
    case 'T' => "GY"
    case 'U' => "I"
    case 'V' => "WY"
    case 'W' => "CQWY"
    case _ => ""
  }

  lemma NoPinPath(code: Name)
    requires code in Unavailable(PinPath)
    ensures Owned(code, NotAvailableHandler) && code.1 in StubSeconds(code.0)
  {
  }

  lemma NoLmkPin(code: Name)
    requires code in Unavailable(LmkPin)
    ensures Owned(code, NotAvailableHandler) && code.1 in StubSeconds(code.0)
  {
  }

  lemma NoEncryption(code: Name)
    requires code in Unavailable(Encryption)
    ensures Owned(code, NotAvailableHandler) && code.1 in StubSeconds(code.0)
  {
  }

  lemma NoKeysA(code: Name)
    requires code in Unavailable(KeysA)
    ensures Owned(code, NotAvailableHandler) && code.1 in StubSeconds(code.0)
  {
  }

  lemma NoKeysBcd(code: Name)
    requires code in Unavailable(KeysBcd)
    ensures Owned(code, NotAvailableHandler) && code.1 in StubSeconds(code.0)
  {
  }

  lemma NoKeysFg(code: Name)
    requires code in Unavailable(KeysFg)
    ensures Owned(code, NotAvailableHandler) && code.1 in StubSeconds(code.0)
  {
  }

  lemma NoKeysHijk(code: Name)
    requires code in Unavailable(KeysHijk)
    ensures Owned(code, NotAvailableHandler) && code.1 in StubSeconds(code.0)
  {
  }

  lemma NoKeysLm(code: Name)
    requires code in Unavailable(KeysLm)
    ensures Owned(code, NotAvailableHandler) && code.1 in StubSeconds(code.0)
  {
  }

  lemma NoRtks(code: Name)
    requires code in Unavailable(Rtks)
    ensures Owned(code, NotAvailableHandler) && code.1 in StubSeconds(code.0)
  {
  }

  lemma NoAs2805(code: Name)
    requires code in Unavailable(As2805)
    ensures Owned(code, NotAvailableHandler) && code.1 in StubSeconds(code.0)
  {
  }

  lemma NoAdminNqr(code: Name)
    requires code in Unavailable(AdminNqr)
    ensures Owned(code, NotAvailableHandler) && code.1 in StubSeconds(code.0)
  {
  }

  lemma NoAdminStuvw(code: Name)
    requires code in Unavailable(AdminStuvw)
    ensures Owned(code, NotAvailableHandler) && code.1 in StubSeconds(code.0)
  {
  }

  lemma OwnPinCodes(h: Handler, code: Name)
    requires h.PinHandler? || h.PinChangeHandler? || h.DieboldPinHandler? || h.RandomPinHandler?
          || h.DukptPinVerifyHandler? || h.DukptPinVerifyAesHandler? || h.PinVerifyNonDukptHandler?
    requires code in CommandCodes(h)
    ensures Owned(code, h)
  {
  }

  lemma OwnMacCodes(h: Handler, code: Name)
    requires h.DukptMacHandler? || h.IssuerScriptMacHandler? || h.HmacHandler? || h.MacHandler?
          || h.MacTranslateHandler? || h.LegacyMacHandler?
    requires code in CommandCodes(h)
    ensures Owned(code, h)
  {
  }

  lemma OwnCardCodes(h: Handler, code: Name)
    requires h.EncryptDecryptHandler? || h.InternationalEncryptHandler? || h.CapArqcHandler? || h.EmvDecryptHandler?
          || h.KqArqcHandler? || h.KwArqcHandler? || h.UnionPayArqcHandler? || h.CvvHandler? || h.DynamicCvvHandler?
          || h.HeartbeatHandler?
    requires code in CommandCodes(h)
    ensures Owned(code, h)
  {
  }

  lemma SortedA(code: Name)
    requires code.0 in "A" && code.1 in StubSeconds(code.0)
    ensures code in Unavailable(PinPath) || code in Unavailable(KeysA)
  {
  }

  lemma SortedB(code: Name)
    requires code.0 in "B" && code.1 in StubSeconds(code.0)
    ensures code in Unavailable(PinPath) || code in Unavailable(KeysBcd)
  {
  }

  lemma SortedCd(code: Name)
    requires code.0 in "CD" && code.1 in StubSeconds(code.0)
    ensures code in Unavailable(PinPath) || code in Unavailable(KeysBcd)
  {
  }

  lemma SortedE(code: Name)
    requires code.0 in "E" && code.1 in StubSeconds(code.0)
    ensures code in Unavailable(PinPath) || code in Unavailable(Encryption)
  {
  }

  lemma SortedFg(code: Name)
    requires code.0 in "FG" && code.1 in StubSeconds(code.0)
    ensures code in Unavailable(PinPath) || code in Unavailable(Encryption) || code in Unavailable(KeysFg)
  {
  }

  lemma SortedH(code: Name)
    requires code.0 in "H" && code.1 in StubSeconds(code.0)
    ensures code in Unavailable(KeysHijk) || code in Unavailable(As2805)
  {
  }

  lemma SortedIj(code: Name)
    requires code.0 in "IJ" && code.1 in StubSeconds(code.0)
    ensures code in Unavailable(PinPath) || code in Unavailable(KeysHijk)
  {
  }

  lemma SortedK(code: Name)
    requires code.0 in "K" && code.1 in StubSeconds(code.0)
    ensures code in Unavailable(KeysHijk)
  {
  }

  lemma SortedLm(code: Name)
    requires code.0 in "LM" && code.1 in StubSeconds(code.0)
    ensures code in Unavailable(LmkPin) || code in Unavailable(KeysLm)
  {
  }

  lemma SortedNq(code: Name)
    requires code.0 in "NQ" && code.1 in StubSeconds(code.0)
    ensures code in Unavailable(LmkPin) || code in Unavailable(AdminNqr)
  {
  }

  lemma SortedR(code: Name)
    requires code.0 in "R" && code.1 in StubSeconds(code.0)
    ensures code in Unavailable(Rtks) || code in Unavailable(AdminNqr)
  {
  }

  lemma SortedStuvw(code: Name)
    requires code.0 in "STUVW" && code.1 in StubSeconds(code.0)
    ensures code in Unavailable(AdminStuvw)
  {
  }

  lemma OwnNoCodes(code: Name)
    requires code in CommandCodes(NotAvailableHandler)
    ensures Owned(code, NotAvailableHandler) && code.1 in StubSeconds(code.0)
  {
    hide Owned, Owner, Unavailable, StubSeconds;
    if code in Unavailable(PinPath) {
      NoPinPath(code);
    } else if code in Unavailable(LmkPin) {
      NoLmkPin(code);
    } else if code in Unavailable(Encryption) {
      NoEncryption(code);
    } else if code in Unavailable(KeysA) {
      NoKeysA(code);
    } else if code in Unavailable(KeysBcd) {
      NoKeysBcd(code);
    } else if code in Unavailable(KeysFg) {
      NoKeysFg(code);
    } else if code in Unavailable(KeysHijk) {
      NoKeysHijk(code);
    } else if code in Unavailable(KeysLm) {
      NoKeysLm(code);
    } else if code in Unavailable(Rtks) {
      NoRtks(code);
    } else if code in Unavailable(As2805) {
      NoAs2805(code);
    } else if code in Unavailable(AdminNqr) {
      NoAdminNqr(code);
    } else {
      NoAdminStuvw(code);
    }
  }

  lemma SortedCodes(code: Name)
    requires code.1 in StubSeconds(code.0)
    ensures code in CommandCodes(NotAvailableHandler)
  {
    hide Unavailable;
    match code.0
    case 'A' => SortedA(code);
    case 'B' => SortedB(code);
    case 'C' | 'D' => SortedCd(code);
    case 'E' => SortedE(code);
    case 'F' | 'G' => SortedFg(code);
    case 'H' => SortedH(code);
    case 'I' | 'J' => SortedIj(code);
    case 'K' => SortedK(code);
    case 'L' | 'M' => SortedLm(code);
    case 'N' | 'Q' => SortedNq(code);
    case 'R' => SortedR(code);
    case 'S' | 'T' | 'U' | 'V' | 'W' => SortedStuvw(code);
    case _ =>
  }

  /** The stub's codes are those of the sorted table, no more and no fewer. */
  lemma StubCodes(code: Name)
    ensures code in CommandCodes(NotAvailableHandler) <==> code.1 in StubSeconds(code.0)
  {
    hide CommandCodes, Owned, Owner, Unavailable, StubSeconds;
    if code in CommandCodes(NotAvailableHandler) {
      OwnNoCodes(code);
    }
    if code.1 in StubSeconds(code.0) {
      SortedCodes(code);
    }
  }

  lemma OwnCodes(h: Handler, code: Name)
    requires code in CommandCodes(h)
    ensures Owned(code, h)
  {
    hide Owned, Owner, CommandCodes;
    match h
    case NotAvailableHandler => OwnNoCodes(code);
    case DukptMacHandler | IssuerScriptMacHandler | HmacHandler | MacHandler | MacTranslateHandler | LegacyMacHandler =>
      OwnMacCodes(h, code);
    case PinHandler | PinChangeHandler | DieboldPinHandler | RandomPinHandler | DukptPinVerifyHandler
      | DukptPinVerifyAesHandler | PinVerifyNonDukptHandler =>
      OwnPinCodes(h, code);
    case _ => OwnCardCodes(h, code);
  }

  lemma KeyInjective(c: Name, d: Name)
    requires c.0 <= '~' && c.1 <= '~' && d.0 <= '~' && d.1 <= '~' && Key(c) == Key(d)
    ensures c == d
  {
    assert Key(c)[0] == Key(d)[0] && Key(c)[1] == Key(d)[1];
  }

  /** No code is listed by two handlers. */
  lemma OneLister(h: Handler, g: Handler, code: Pair)
    requires Lists(CommandCodes(h), code) && Lists(CommandCodes(g), code)
    ensures h == g
  {
    var c :| c in CommandCodes(h) && Key(c) == code;
    var d :| d in CommandCodes(g) && Key(d) == code;
    OwnCodes(h, c);
    OwnCodes(g, d);
    hide CommandCodes, Key, Owner;
    KeyInjective(c, d);
  }

  // ----------------------------------------------------- what the table says

  lemma {:induction false} EnteredMeans(table: Table, codes: seq<Name>, h: Handler, code: Pair)
    ensures var t := Entered(table, codes, h);
            && (code in t <==> code in table || Lists(codes, code))
            && (code in t ==> t[code] == if Lists(codes, code) then h else table[code])
    decreases |codes|
  {
    hide Key;
    if codes != [] {
      EnteredMeans(table[Key(codes[0]) := h], codes[1..], h, code);
      assert Lists(codes, code) <==> Key(codes[0]) == code || Lists(codes[1..], code) by {
        assert forall c :: c in codes <==> c == codes[0] || c in codes[1..];
      }
    }
  }

  /** A handler's own entry stays whatever else is entered after it. */
  lemma {:induction false} EntryKept(table: Table, handlers: seq<Handler>, h: Handler, code: Pair)
    requires code in table && table[code] == h && Lists(CommandCodes(h), code)
    ensures code in Assembled(table, handlers) && Assembled(table, handlers)[code] == h
    decreases |handlers|
  {
    hide Entered, Lists, CommandCodes;
    if handlers != [] {
      EnteredMeans(table, CommandCodes(handlers[0]), handlers[0], code);
      if Lists(CommandCodes(handlers[0]), code) {
        OneLister(h, handlers[0], code);
      }
      EntryKept(Entered(table, CommandCodes(handlers[0]), handlers[0]), handlers[1..], h, code);
    }
  }

  lemma {:induction false} AssembledFrom(table: Table, handlers: seq<Handler>, h: Handler, code: Pair)
    requires code !in table
    ensures var t := Assembled(table, handlers);
            code in t && t[code] == h <==> h in handlers && Lists(CommandCodes(h), code)
    decreases |handlers|
  {
    hide Entered, Lists, CommandCodes;
    if handlers != [] {
      var first := handlers[0];
      var next := Entered(table, CommandCodes(first), first);
      EnteredMeans(table, CommandCodes(first), first, code);
      assert h in handlers <==> h == first || h in handlers[1..];
      if Lists(CommandCodes(first), code) {
        EntryKept(next, handlers[1..], first, code);
        if Lists(CommandCodes(h), code) {
          OneLister(h, first, code);
        }
      } else {
        AssembledFrom(next, handlers[1..], h, code);
      }
    }
  }

  /** Whatever handlers a module has, in whatever order and however often: a code is looked up to the one
      of them, or the stub, that lists it. Registering never takes a code from another handler. */
  lemma LookupMeans(handlers: seq<Handler>, h: Handler, code: Pair)
    ensures Lookup(TableFor(handlers), code) == Some(h)
       <==> (h in handlers || h == NotAvailableHandler) && Lists(CommandCodes(h), code)
  {
    AssembledFrom(map[], handlers + [NotAvailableHandler], h, code);
    hide Assembled, Lists, CommandCodes;
  }

  /** The payShield module leaves out none, so each handler answers exactly the codes it lists. */
  lemma PayShieldComplete(h: Handler, code: Pair)
    ensures Lookup(TableFor(HANDLERS), code) == Some(h) <==> Lists(CommandCodes(h), code)
  {
    LookupMeans(HANDLERS, h, code);
    AllRegistered(h);
    hide Assembled, TableFor, Lists, CommandCodes;
  }

  lemma AllRegistered(h: Handler)
    ensures h in HANDLERS || h == NotAvailableHandler
  {
  }
}
