/** The connection loop over the modelled handlers: every client decodes every reply. */
module Proxy {
  import opened Bytes
  import opened Framing
  import opened Connection
  import opened Apc
  import opened Keys
  import BlockCipher
  import Cvv
  import DukptMac
  import LegacyMac
  import Mac
  import MacTranslate
  import Passthrough
  import PinChange
  import opened Registry
  import Shell

  const MAX_REQUEST_PAYLOAD: nat := 65531

  function LegacyCommand(code: Pair): Option<LegacyMac.Command> {
    if code[0] != 'M' as int then None
    else
      match code[1] as char
      case 'A' => Some(LegacyMac.MA)
      case 'C' => Some(LegacyMac.MC)
      case 'E' => Some(LegacyMac.ME)
      case 'K' => Some(LegacyMac.MK)
      case 'M' => Some(LegacyMac.MM)
      case 'O' => Some(LegacyMac.MO)
      case 'U' => Some(LegacyMac.MU)
      case 'W' => Some(LegacyMac.MW)
      case 'Q' => Some(LegacyMac.MQ)
      case 'S' => Some(LegacyMac.MS)
      case _ => None
  }

  /** What a handler does with a command it was registered for; none for the handlers not modelled. */
  function Run(w: World, h: Handler, code: Pair, payload: bytes): Option<Outcome> {
    match h
    case MacHandler =>
      var family := if code == Code('M', '6') || code == Code('M', '8') then Mac.M6 else Mac.C2;
      Some(Mac.Handle(w, family, code == Code('C', '4') || code == Code('M', '8'), payload))
    case DukptMacHandler => Some(DukptMac.HandleGw(w, payload))
    case MacTranslateHandler => Some(MacTranslate.HandleMy(w, payload))
    case LegacyMacHandler =>
      (match LegacyCommand(code)
       case Some(command) => Some(LegacyMac.HandleLegacy(w, command, payload))
       case None => Some(Failure(Unsupported, [])))
    case InternationalEncryptHandler =>
      if code == Code('M', '0') then Some(BlockCipher.HandleM0(w, payload))
      else if code == Code('M', '2') then Some(BlockCipher.HandleM2(w, payload))
      else if code == Code('M', '4') then Some(BlockCipher.HandleM4(w, payload))
      else Some(Failure(Unsupported, []))
    case PinChangeHandler => Some(PinChange.HandleChange(w, code != Code('C', 'U'), payload))
    case CvvHandler =>
      if code == Code('C', 'Y') then Some(Cvv.HandleCard(w, true, payload))
      else if code == Code('N', 'Y') || code == Code('R', 'Y') then Some(Failure(Unsupported, []))
      else Some(Cvv.HandleCard(w, false, payload))
    case NotAvailableHandler => Some(Failure(Unsupported, []))
    case _ => None
  }

  /** A module's handlers: those modelled in their world, and whatever the others answer. */
  datatype Service = Service(world: World, handlers: seq<Handler>, other: Command -> Reply)
  {
    function Registered(): Table {
      TableFor(handlers)
    }
  }

  /** A command's reply and the calls it made, "68" where no handler is registered. A task that panics
      writes nothing at all, so its case only stands for a reply; `RunFits` shows it does not arise. */
  function Dispatch(s: Service, cmd: Command): (Reply, seq<Call>) {
    match Lookup(s.Registered(), cmd.code)
    case None => (Reply(CODE_DISABLED, []), [])
    case Some(h) =>
      match Run(s.world, h, cmd.code, cmd.payload)
      case None => (s.other(cmd), [])
      case Some(Done(reply, calls)) => (reply, calls)
      case Some(Panicked(calls)) => (Reply(CODE_INTERNAL, []), calls)
  }

  /** The connection's surroundings without discovery; its state is the list of APC calls so far. */
  function EnvOf(s: Service): Env<seq<Call>> {
    Env(s.Registered().Keys, false,
        (calls: seq<Call>, cmd: Command) =>
          var (reply, made) := Dispatch(s, cmd);
          (calls + made, reply),
        (calls: seq<Call>, frame: bytes) => (calls, None))
  }

  /** All that is assumed of the service: APC keeps its contracts, its CMACs have sixteen digits at
      least, and the handlers that are not modelled keep to the frame. */
  ghost predicate Sound(s: Service) {
    && BlockCipher.CipherContract(s.world.apc)
    && PinChange.PinContract(s.world.apc) && Cvv.CardContract(s.world.apc)
    && CmacsFill(s.world.apc)
    && forall cmd :: |s.other(cmd).payload| <= MAX_REPLY_PAYLOAD
  }

  ghost predicate CmacsFill(apc: Client) {
    forall req: MacRequest :: apc.generateMac(req).Some? && req.scheme == Static(Cmac)
      ==> |apc.generateMac(req).value| >= 16
  }

  // --------------------------------------------- every reply fits its frame

  /** A run that ended with a reply no frame is too small for. */
  predicate Fits(o: Outcome) {
    o.Done? && |o.reply.payload| <= MAX_REPLY_PAYLOAD
  }

  lemma MacFits(w: World, family: Mac.Family, isVerify: bool, payload: bytes)
    requires CmacsFill(w.apc)
    ensures Fits(Mac.Handle(w, family, isVerify, payload))
  {
    hide Mac.MacFrom, ErrorCode, SameIgnoringCase;
    if Mac.MacFrom(family, payload).Ok? {
      Mac.Sizes(family, payload);
    }
  }

  lemma GwFits(w: World, payload: bytes)
    ensures Fits(DukptMac.HandleGw(w, payload))
  {
    hide DukptMac.BodyFrom, DukptMac.CheckMac, ErrorCode;
    if payload != [] && DukptMac.BodyFrom(payload[1..]).Ok? {
      DukptMac.SizeKnown(payload[1..]);
    }
  }

  lemma MyFits(w: World, payload: bytes)
    ensures Fits(MacTranslate.HandleMy(w, payload))
  {
    hide MacTranslate.FieldsFrom, MacTranslate.RunMy, ErrorCode, MacTranslate.LegWire.Printable,
         MacTranslate.MyWire.Print;
    if MacTranslate.MyFrom(payload).Ok? {
      var wire := MacTranslate.FieldsExact(payload);
      var (f, mac) := MacTranslate.MyFrom(payload).value.0;
      MyRunFits(w, f, mac);
    }
  }

  lemma MyRunFits(w: World, f: MacTranslate.MyFields, mac: bytes)
    requires f.outbound.size <= 4
    ensures Fits(MacTranslate.RunMy(w, f, mac))
  {
    hide DukptMac.CheckMac, ErrorCode;
  }

  lemma LegacyFits(w: World, c: LegacyMac.Command, payload: bytes)
    ensures Fits(LegacyMac.HandleLegacy(w, c, payload))
  {
    hide LegacyMac.LegacyFrom, LegacyMac.Request, ErrorCode, LegacyMac.Generates;
  }

  lemma ChangeFits(w: World, du: bool, payload: bytes)
    requires PinChange.PinContract(w.apc)
    ensures Fits(PinChange.HandleChange(w, du, payload))
  {
    hide PinChange.ChangeFrom, PinChange.ChangeOf, ErrorCode, PinChange.AllDigits;
  }

  lemma CardFits(w: World, check: bool, payload: bytes)
    requires Cvv.CardContract(w.apc)
    ensures Fits(Cvv.HandleCard(w, check, payload))
  {
    hide Cvv.CardFrom, ErrorCode;
  }

  /** Every modelled handler answers every payload that can arrive in a frame, under whatever code, and
      no answer is too long for one: none panics, none overflows. */
  lemma RunFits(s: Service, h: Handler, code: Pair, payload: bytes)
    requires Sound(s) && |payload| <= MAX_REQUEST_PAYLOAD
    ensures var o := Run(s.world, h, code, payload); o.Some? ==> Fits(o.value)
  {
    var w := s.world;
    RefusalFits();
    hide Mac.Handle, DukptMac.HandleGw, MacTranslate.HandleMy, LegacyMac.HandleLegacy, BlockCipher.HandleM0,
         BlockCipher.HandleM2, BlockCipher.HandleM4, PinChange.HandleChange, Cvv.HandleCard, Fits, Failure;
    match h
    case MacHandler =>
      var family := if code == Code('M', '6') || code == Code('M', '8') then Mac.M6 else Mac.C2;
      MacFits(w, family, code == Code('C', '4') || code == Code('M', '8'), payload);
    case DukptMacHandler => GwFits(w, payload);
    case MacTranslateHandler => MyFits(w, payload);
    case LegacyMacHandler =>
      if LegacyCommand(code).Some? {
        LegacyFits(w, LegacyCommand(code).value, payload);
      }
    case InternationalEncryptHandler => BlocksFit(w, payload);
    case PinChangeHandler => ChangeFits(w, code != Code('C', 'U'), payload);
    case CvvHandler => CardFits(w, code == Code('C', 'Y'), payload);
    case _ =>
  }

  lemma RefusalFits()
    ensures Fits(Failure(Unsupported, []))
  {
  }

  lemma BlocksFit(w: World, payload: bytes)
    requires BlockCipher.CipherContract(w.apc) && |payload| <= MAX_REQUEST_PAYLOAD
    ensures Fits(BlockCipher.HandleM0(w, payload)) && Fits(BlockCipher.HandleM2(w, payload))
    ensures Fits(BlockCipher.HandleM4(w, payload))
  {
    BlockCipher.RepliesNeverOverflow(w, payload);
    hide BlockCipher.HandleM0, BlockCipher.HandleM2, BlockCipher.HandleM4, BlockCipher.SelfDescribing, Succeeded;
  }

  /** What a frame can carry as payload. */
  predicate Framed(cmd: Command) {
    |cmd.payload| <= MAX_REQUEST_PAYLOAD
  }

  lemma {:induction false} SplitFramed(stream: bytes)
    ensures forall i | 0 <= i < |Split(stream)| :: Framed(Split(stream)[i])
    decreases |stream|
  {
    SplitStep(stream);
    if Parse(stream).Some? {
      var f := Parse(stream).value;
      assert |f.command.payload| <= MAX_REQUEST_PAYLOAD;
      SplitFramed(stream[f.length..]);
      hide Parse, Framed;
    }
  }

  lemma DispatchFits(s: Service, cmd: Command)
    requires Sound(s) && Framed(cmd)
    ensures |Dispatch(s, cmd).0.payload| <= MAX_REPLY_PAYLOAD
  {
    var found := Lookup(s.Registered(), cmd.code);
    hide Run, Lookup, TableFor, CmacsFill;
    if found.Some? {
      RunFits(s, found.value, cmd.code, cmd.payload);
    }
  }

  /** The calls to APC that a list of commands makes, in order. */
  function AllCalls(s: Service, cmds: seq<Command>): seq<Call> {
    if cmds == [] then [] else Dispatch(s, cmds[0]).1 + AllCalls(s, cmds[1..])
  }

  lemma {:induction false} CallsInOrder(s: Service, calls: seq<Call>, cmds: seq<Command>)
    ensures Serve(EnvOf(s), calls, cmds).0 == calls + AllCalls(s, cmds)
    decreases |cmds|
  {
    hide TableFor, FrameOf, Dispatch;
    if cmds != [] {
      OneTurn(s, calls, cmds[0]);
      CallsInOrder(s, calls + Dispatch(s, cmds[0]).1, cmds[1..]);
      Regrouped(calls, Dispatch(s, cmds[0]).1, AllCalls(s, cmds[1..]));
      hide Turn;
    } else {
      assert calls + [] == calls;
    }
  }

  lemma Regrouped(a: seq<Call>, b: seq<Call>, c: seq<Call>)
    ensures (a + b) + c == a + (b + c)
  {
  }

  lemma OneTurn(s: Service, calls: seq<Call>, cmd: Command)
    ensures Turn(EnvOf(s))(calls, cmd).0 == calls + Dispatch(s, cmd).1
    ensures Passthrough.ResponseTo(EnvOf(s), calls, cmd) == Local(Dispatch(s, cmd).0)
  {
    if cmd.code !in s.Registered() {
      assert calls + [] == calls;
    }
    hide TableFor, FrameOf, Run, FrameResponse;
  }

  /** `read` holds one reply per command: its header, its code with the second byte counted on by one,
      and what dispatching it gave. */
  ghost predicate AllAnswered(s: Service, cmds: seq<Command>, read: seq<Command>) {
    && |read| == |cmds|
    && forall i | 0 <= i < |cmds| :: ReadsBack(cmds[i], Local(Dispatch(s, cmds[i]).0), read[i])
  }

  /** For every byte stream a client may send, what the proxy writes splits into exactly one reply
      per command of the stream, in order, with the command's header, its answering code and what its
      handler answered; and APC is called for each command in turn. */
  lemma EveryReplyDecodes(s: Service, stream: bytes)
    requires Sound(s)
    ensures var cmds := Split(stream);
            var wire := Flatten(Serve(EnvOf(s), [], cmds).1);
            AllAnswered(s, cmds, Split(wire)) && Residue(wire) == []
    ensures Serve(EnvOf(s), [], Split(stream)).0 == AllCalls(s, Split(stream))
  {
    var cmds := Split(stream);
    hide Sound, Framed, Split, Residue, Serve, EnvOf, Dispatch, Aligned, ReadsBack, Flatten, AllCalls,
         Passthrough.ResponseTo;
    SplitFramed(stream);
    CallsInOrder(s, [], cmds);
    assert [] + AllCalls(s, cmds) == AllCalls(s, cmds);
    Passthrough.OneReplyEach(EnvOf(s), [], cmds);
    forall i | 0 <= i < |cmds|
      ensures Passthrough.Responses(EnvOf(s), [], cmds)[i] == Local(Dispatch(s, cmds[i]).0)
      ensures ReadsAsOne(Passthrough.Responses(EnvOf(s), [], cmds)[i])
    {
      OneTurn(s, Passthrough.StateBefore(EnvOf(s), [], cmds, i), cmds[i]);
      DispatchFits(s, cmds[i]);
    }
  }

  /** The same at the socket, however the client's bytes were cut into reads. */
  method ServeClient(chunks: seq<bytes>, s: Service) returns (written: bytes, calls: seq<Call>)
    requires Sound(s) && forall i | 0 <= i < |chunks| :: |chunks[i]| <= 4096
    ensures AllAnswered(s, Split(Stream(chunks)), Split(written)) && Residue(written) == []
    ensures calls == AllCalls(s, Split(Stream(chunks)))
  {
    hide Sound, Split, Residue, Serve, AllAnswered, AllCalls;
    var p, used, capped := HandleConnection(chunks, EnvOf(s), []);
    EveryReplyDecodes(s, Stream(chunks));
    written, calls := Flatten(p.written), p.st;
  }

  // ----------------------------------------------------- dispatch by the code

  /** What each command does, by the two characters of its code alone. */
  function Served(w: World, name: Name, payload: bytes): Option<Outcome> {
    match name
    case ('C', '2') => Some(Mac.Handle(w, Mac.C2, false, payload))
    case ('C', '4') => Some(Mac.Handle(w, Mac.C2, true, payload))
    case ('M', '6') => Some(Mac.Handle(w, Mac.M6, false, payload))
    case ('M', '8') => Some(Mac.Handle(w, Mac.M6, true, payload))
    case ('G', 'W') => Some(DukptMac.HandleGw(w, payload))
    case ('M', 'Y') => Some(MacTranslate.HandleMy(w, payload))
    case ('M', 'A') => Some(LegacyMac.HandleLegacy(w, LegacyMac.MA, payload))
    case ('M', 'C') => Some(LegacyMac.HandleLegacy(w, LegacyMac.MC, payload))
    case ('M', 'E') => Some(LegacyMac.HandleLegacy(w, LegacyMac.ME, payload))
    case ('M', 'K') => Some(LegacyMac.HandleLegacy(w, LegacyMac.MK, payload))
    case ('M', 'M') => Some(LegacyMac.HandleLegacy(w, LegacyMac.MM, payload))
    case ('M', 'O') => Some(LegacyMac.HandleLegacy(w, LegacyMac.MO, payload))
    case ('M', 'U') => Some(LegacyMac.HandleLegacy(w, LegacyMac.MU, payload))
    case ('M', 'W') => Some(LegacyMac.HandleLegacy(w, LegacyMac.MW, payload))
    case ('M', 'Q') => Some(LegacyMac.HandleLegacy(w, LegacyMac.MQ, payload))
    case ('M', 'S') => Some(LegacyMac.HandleLegacy(w, LegacyMac.MS, payload))
    case ('M', '0') => Some(BlockCipher.HandleM0(w, payload))
    case ('M', '2') => Some(BlockCipher.HandleM2(w, payload))
    case ('M', '4') => Some(BlockCipher.HandleM4(w, payload))
    case ('D', 'U') => Some(PinChange.HandleChange(w, true, payload))
    case ('C', 'U') => Some(PinChange.HandleChange(w, false, payload))
    case ('C', 'W') => Some(Cvv.HandleCard(w, false, payload))
    case ('C', 'Y') => Some(Cvv.HandleCard(w, true, payload))
    case ('N', 'Y') | ('R', 'Y') => Some(Coded('6', '8', [], []))
    case _ => None
  }

  lemma MacServed(w: World, name: Name, payload: bytes)
    requires name in CommandCodes(MacHandler)
    ensures Run(w, MacHandler, Key(name), payload) == Served(w, name, payload)
  {
    hide Mac.Handle;
  }

  lemma LegacyServed(w: World, name: Name, payload: bytes)
    requires name in CommandCodes(LegacyMacHandler)
    ensures Run(w, LegacyMacHandler, Key(name), payload) == Served(w, name, payload)
  {
    hide LegacyMac.HandleLegacy;
  }

  lemma BlockServed(w: World, name: Name, payload: bytes)
    requires name in CommandCodes(InternationalEncryptHandler)
    ensures Run(w, InternationalEncryptHandler, Key(name), payload) == Served(w, name, payload)
  {
    hide BlockCipher.HandleM0, BlockCipher.HandleM2, BlockCipher.HandleM4;
  }

  lemma CardServed(w: World, name: Name, payload: bytes)
    requires name in CommandCodes(CvvHandler)
    ensures Run(w, CvvHandler, Key(name), payload) == Served(w, name, payload)
  {
    ErrorCodes();
    hide Cvv.HandleCard, ErrorCode;
  }

  lemma OthersServed(w: World, h: Handler, name: Name, payload: bytes)
    requires name in CommandCodes(h) && (h.PinChangeHandler? || h.DukptMacHandler? || h.MacTranslateHandler?)
    ensures Run(w, h, Key(name), payload) == Served(w, name, payload)
  {
    hide PinChange.HandleChange, DukptMac.HandleGw, MacTranslate.HandleMy;
  }

  /** A modelled handler does for each code it lists what that code asks for. */
  lemma RunServes(w: World, h: Handler, name: Name, payload: bytes)
    requires name in CommandCodes(h) && Run(w, h, Key(name), payload).Some?
    ensures h != NotAvailableHandler ==> Run(w, h, Key(name), payload) == Served(w, name, payload)
    ensures h == NotAvailableHandler ==> Run(w, h, Key(name), payload) == Some(Coded('6', '8', [], []))
  {
    match h
    case MacHandler => MacServed(w, name, payload);
    case LegacyMacHandler => LegacyServed(w, name, payload);
    case InternationalEncryptHandler => BlockServed(w, name, payload);
    case CvvHandler => CardServed(w, name, payload);
    case PinChangeHandler => OthersServed(w, h, name, payload);
    case DukptMacHandler => OthersServed(w, h, name, payload);
    case MacTranslateHandler => OthersServed(w, h, name, payload);
    case _ => ErrorCodes();
    hide Served, CommandCodes, Key, ErrorCode;
  }

  /** How a run shows: its reply and its calls. */
  function Shown(o: Outcome): (Reply, seq<Call>) {
    match o
    case Done(reply, calls) => (reply, calls)
    case Panicked(calls) => (Reply(Code('4', '1'), []), calls)
  }

  /** Whatever module the handler is registered in, among whatever others and in whatever order, a frame
      with one of its codes gets what that code asks for. */
  lemma DispatchServes(s: Service, h: Handler, name: Name, header: Pair, payload: bytes)
    requires h in s.handlers && h != NotAvailableHandler && name in CommandCodes(h)
    requires Served(s.world, name, payload).Some? && Run(s.world, h, Key(name), payload).Some?
    ensures Dispatch(s, Command(header, Key(name), payload)) == Shown(Served(s.world, name, payload).value)
  {
    hide Served, Run, CommandCodes, TableFor, Key;
    LookupMeans(s.handlers, h, Key(name));
    RunServes(s.world, h, name, payload);
    assert Lists(CommandCodes(h), Key(name));
  }

  /** The handlers that are modelled, whatever code they are given. */
  lemma RunKnown(w: World, h: Handler, code: Pair, payload: bytes)
    ensures Run(w, h, code, payload).Some? <==>
              h in {MacHandler, DukptMacHandler, MacTranslateHandler, LegacyMacHandler, InternationalEncryptHandler,
                    PinChangeHandler, CvvHandler, NotAvailableHandler}
  {
    hide Mac.Handle, DukptMac.HandleGw, MacTranslate.HandleMy, LegacyMac.HandleLegacy, BlockCipher.HandleM0,
         BlockCipher.HandleM2, BlockCipher.HandleM4, PinChange.HandleChange, Cvv.HandleCard, LegacyCommand, Code;
  }

  lemma MacDispatched(s: Service, family: Mac.Family, isVerify: bool, header: Pair, payload: bytes)
    requires MacHandler in s.handlers
    ensures Dispatch(s, Command(header, MacCode(family, isVerify), payload))
         == Shown(Mac.Handle(s.world, family, isVerify, payload))
  {
    var name := match family
      case C2 => ('C', if isVerify then '4' else '2')
      case M6 => ('M', if isVerify then '8' else '6');
    assert name in CommandCodes(MacHandler) && Key(name) == MacCode(family, isVerify);
    assert Served(s.world, name, payload) == Some(Mac.Handle(s.world, family, isVerify, payload));
    hide Served, Run, CommandCodes, Mac.Handle, Key, MacCode, Dispatch, Shown;
    RunKnown(s.world, MacHandler, Key(name), payload);
    DispatchServes(s, MacHandler, name, header, payload);
  }

  function MacCode(family: Mac.Family, isVerify: bool): Pair {
    match family
    case C2 => if isVerify then Code('C', '4') else Code('C', '2')
    case M6 => if isVerify then Code('M', '8') else Code('M', '6')
  }

  lemma BlockDispatched(s: Service, header: Pair, payload: bytes)
    requires InternationalEncryptHandler in s.handlers
    ensures Dispatch(s, Command(header, Code('M', '0'), payload)) == Shown(BlockCipher.HandleM0(s.world, payload))
    ensures Dispatch(s, Command(header, Code('M', '2'), payload)) == Shown(BlockCipher.HandleM2(s.world, payload))
    ensures Dispatch(s, Command(header, Code('M', '4'), payload)) == Shown(BlockCipher.HandleM4(s.world, payload))
  {
    hide *;
    BlockCodes(s.world, payload);
    OneBlockDispatched(s, ('M', '0'), header, payload);
    OneBlockDispatched(s, ('M', '2'), header, payload);
    OneBlockDispatched(s, ('M', '4'), header, payload);
  }

  lemma BlockCodes(w: World, payload: bytes)
    ensures Served(w, ('M', '0'), payload) == Some(BlockCipher.HandleM0(w, payload))
    ensures Served(w, ('M', '2'), payload) == Some(BlockCipher.HandleM2(w, payload))
    ensures Served(w, ('M', '4'), payload) == Some(BlockCipher.HandleM4(w, payload))
    ensures Key(('M', '0')) == Code('M', '0') && Key(('M', '2')) == Code('M', '2') && Key(('M', '4')) == Code('M', '4')
  {
    hide BlockCipher.HandleM0, BlockCipher.HandleM2, BlockCipher.HandleM4;
  }

  lemma OneBlockDispatched(s: Service, name: Name, header: Pair, payload: bytes)
    requires InternationalEncryptHandler in s.handlers && name in [('M', '0'), ('M', '2'), ('M', '4')]
    requires Served(s.world, name, payload).Some?
    ensures Dispatch(s, Command(header, Key(name), payload)) == Shown(Served(s.world, name, payload).value)
  {
    assert name in CommandCodes(InternationalEncryptHandler);
    hide Served, Run, CommandCodes, Key, Dispatch, Shown;
    RunKnown(s.world, InternationalEncryptHandler, Key(name), payload);
    DispatchServes(s, InternationalEncryptHandler, name, header, payload);
  }

  lemma CardDispatched(s: Service, header: Pair, payload: bytes)
    requires CvvHandler in s.handlers
    ensures Dispatch(s, Command(header, Code('C', 'W'), payload)) == Shown(Cvv.HandleCard(s.world, false, payload))
    ensures Dispatch(s, Command(header, Code('C', 'Y'), payload)) == Shown(Cvv.HandleCard(s.world, true, payload))
  {
    var h, w := CvvHandler, s.world;
    assert ('C', 'W') in CommandCodes(h) && ('C', 'Y') in CommandCodes(h);
    assert Served(w, ('C', 'W'), payload) == Some(Cvv.HandleCard(w, false, payload));
    assert Served(w, ('C', 'Y'), payload) == Some(Cvv.HandleCard(w, true, payload));
    assert Key(('C', 'W')) == Code('C', 'W') && Key(('C', 'Y')) == Code('C', 'Y');
    hide Served, Run, CommandCodes, Cvv.HandleCard, Key, Code, Dispatch, Shown;
    RunKnown(w, h, Key(('C', 'W')), payload);
    RunKnown(w, h, Key(('C', 'Y')), payload);
    DispatchServes(s, h, ('C', 'W'), header, payload);
    DispatchServes(s, h, ('C', 'Y'), header, payload);
  }

  lemma ChangeDispatched(s: Service, du: bool, header: Pair, payload: bytes)
    requires PinChangeHandler in s.handlers
    ensures Dispatch(s, Command(header, if du then Code('D', 'U') else Code('C', 'U'), payload))
         == Shown(PinChange.HandleChange(s.world, du, payload))
  {
    var h, w, name := PinChangeHandler, s.world, if du then ('D', 'U') else ('C', 'U');
    assert name in CommandCodes(h) && Key(name) == if du then Code('D', 'U') else Code('C', 'U');
    assert Served(w, name, payload) == Some(PinChange.HandleChange(w, du, payload));
    hide Served, Run, CommandCodes, PinChange.HandleChange, Key, Code, Dispatch, Shown;
    RunKnown(w, h, Key(name), payload);
    DispatchServes(s, h, name, header, payload);
  }

  /** A command that is shown with "00" succeeded. */
  lemma ShownSuccess(o: Outcome)
    ensures Shown(o).0.error == SUCCESS <==> Succeeded(o)
    ensures o.Done? ==> Shown(o) == (o.reply, o.calls)
  {
    assert Code('4', '1')[0] != SUCCESS[0];
  }

  /** Through the registry: a generate command's reply, appended to its payload and sent under the
      verify code of the family, is answered 00 exactly when APC's MAC filled it, whatever other
      handlers the module registers and in whatever order. */
  lemma GeneratedMacVerifies(s: Service, family: Mac.Family, header: Pair, payload: bytes, full: bytes)
    requires MacHandler in s.handlers && MacContract(s.world.apc)
    requires Mac.MacFrom(family, payload).Ok? && Mac.MacFrom(family, payload).value.1 == []
    requires var f := Mac.MacFrom(family, payload).value.0;
             && s.world.resolve(f.key).Ok?
             && s.world.apc.generateMac(Mac.Request(s.world.resolve(f.key).value, f)) == Some(full)
    ensures var made := Dispatch(s, Command(header, MacCode(family, false), payload)).0;
            && made.error == SUCCESS
            && (Dispatch(s, Command(header, MacCode(family, true), payload + made.payload)).0.error == SUCCESS
                <==> |full| >= Mac.MacFrom(family, payload).value.0.size * 2)
  {
    hide Mac.Handle, Mac.MacFrom, MacContract, MacCode, Dispatch, Shown, Succeeded;
    var made := Mac.Handle(s.world, family, false, payload);
    Mac.GenerateThenVerify(s.world, family, payload, full);
    ShownSuccess(made);
    ShownSuccess(Mac.Handle(s.world, family, true, payload + Shown(made).0.payload));
    MacDispatched(s, family, false, header, payload);
    MacDispatched(s, family, true, header, payload + Shown(made).0.payload);
    SucceededDone(made);
  }

  lemma SucceededDone(o: Outcome)
    ensures Succeeded(o) ==> o.Done?
  {
  }

  /** Through the registry: an M2 that ends with M0's reply is answered with the plaintext. */
  lemma EncryptedThenDecrypted(s: Service, header: Pair, payload: bytes)
    returns (h: BlockCipher.M0Head, rest: bytes)
    requires InternationalEncryptHandler in s.handlers && BlockCipher.CipherContract(s.world.apc)
    requires BlockCipher.M0From(payload).Ok?
    requires Dispatch(s, Command(header, Code('M', '0'), payload)).0.error == SUCCESS
    ensures h.Printable() && payload == h.Print(rest)
    ensures var cipher := Dispatch(s, Command(header, Code('M', '0'), payload)).0.payload;
            Dispatch(s, Command(header, Code('M', '2'), h.Print(cipher))).0
            == Reply(SUCCESS, BlockCipher.LengthAndText(Upper(BlockCipher.M0From(payload).value.0.text)))
  {
    hide BlockCipher.HandleM0, BlockCipher.HandleM2, BlockCipher.M0From, Dispatch, Code, Shown, Succeeded,
         BlockCipher.LengthAndText, BlockCipher.M0Head.Print, BlockCipher.M0Head.Printable, BlockCipher.CipherContract;
    var made := BlockCipher.HandleM0(s.world, payload);
    BlockDispatched(s, header, payload);
    ShownSuccess(made);
    h, rest := BlockCipher.DecryptUndoesEncrypt(s.world, payload);
    var again := h.Print(made.reply.payload);
    BlockDispatched(s, header, again);
    ShownSuccess(BlockCipher.HandleM2(s.world, again));
  }

  /** Through the registry: of all three-byte values put into a CW request answered 00, CY accepts
      exactly CW's own reply. */
  lemma CardValueVerifies(s: Service, header: Pair, payload: bytes, value: bytes) returns (k: nat)
    requires CvvHandler in s.handlers && Cvv.CardContract(s.world.apc) && |value| == 3
    requires Dispatch(s, Command(header, Code('C', 'W'), payload)).0.error == SUCCESS
    ensures k <= |payload| && IsKey(Key32, payload[..k])
    ensures Dispatch(s, Command(header, Code('C', 'Y'), payload[..k] + (value + payload[k..]))).0.error == SUCCESS
       <==> value == Dispatch(s, Command(header, Code('C', 'W'), payload)).0.payload
  {
    hide Cvv.HandleCard, Dispatch, Code, IsKey, Cvv.CardContract, Shown, Succeeded;
    var made := Cvv.HandleCard(s.world, false, payload);
    CardDispatched(s, header, payload);
    ShownSuccess(made);
    k := Cvv.ValueVerifies(s.world, payload, value);
    var again := payload[..k] + (value + payload[k..]);
    CardDispatched(s, header, again);
    ShownSuccess(Cvv.HandleCard(s.world, true, again));
  }

  /** Through the registry: after a DU or CU answered 00, the same command for a further PIN, with the
      PIN block and the datum that were new as current ones, has its current PIN accepted by APC: it
      makes the generate call. */
  lemma ChangedPinVerifies(s: Service, header: Pair, wire: PinChange.ChangeWire, next: bytes)
    requires PinChangeHandler in s.handlers && PinChange.PinContract(s.world.apc) && wire.Printable() && |next| == 16
    requires Dispatch(s, Command(header, if wire.Du() then Code('D', 'U') else Code('C', 'U'), wire.Print([]))).0.error
          == SUCCESS
    ensures var code := if wire.Du() then Code('D', 'U') else Code('C', 'U');
            var reply := Dispatch(s, Command(header, code, wire.Print([]))).0.payload;
            var after := PinChange.Following(wire, reply, next);
            && after.Printable()
            && |Dispatch(s, Command(header, code, after.Print([]))).1| == 2
            && Dispatch(s, Command(header, code, after.Print([]))).1[1].GeneratePin?
  {
    Selectable(wire);
    hide PinChange.HandleChange, Dispatch, Code, PinChange.PinContract, PinChange.ChangeWire.Print,
         PinChange.ChangeWire.Printable, PinChange.Selector.Printable, Shown, Succeeded;
    var made := PinChange.HandleChange(s.world, wire.Du(), wire.Print([]));
    ChangeDispatched(s, wire.Du(), header, wire.Print([]));
    ShownSuccess(made);
    PinChange.FollowingVerifies(s.world, wire, next);
    var after := PinChange.Following(wire, made.reply.payload, next);
    Selectable(after);
    ChangeDispatched(s, wire.Du(), header, after.Print([]));
    ShownSuccess(PinChange.HandleChange(s.world, wire.Du(), after.Print([])));
  }

  lemma Selectable(wire: PinChange.ChangeWire)
    requires wire.Printable()
    ensures wire.selector.Printable()
  {
    hide IsKey;
  }

  // ------------------------------------------------------- many clients at once

  /** The shell around this service. */
  function ShellOf(s: Service, discovery: bool, logging: bool): Shell.Config {
    Shell.Config(s.Registered().Keys, discovery, logging, (cmd: Command, reply: Reply) => reply == Dispatch(s, cmd).0)
  }

  lemma Unregistered(s: Service, cmd: Command)
    requires cmd.code !in s.Registered()
    ensures Dispatch(s, cmd).0 == Reply(CODE_DISABLED, [])
  {
    hide TableFor, Run;
  }

  lemma LocalsFit(s: Service, discovery: bool, logging: bool, cmd: Command, response: Response)
    requires Sound(s) && Framed(cmd) && Shell.Allowed(ShellOf(s, discovery, logging), cmd, response)
    ensures response.Local? ==> ReadsAsOne(response)
    ensures !discovery ==> response == Local(Dispatch(s, cmd).0)
    ensures cmd.code in s.Registered() ==> response == Local(Dispatch(s, cmd).0)
  {
    hide Run, Sound, Framed, TableFor, Dispatch;
    DispatchFits(s, cmd);
    if cmd.code !in s.Registered() {
      Unregistered(s, cmd);
    }
  }

  /** The answers a task has given: those made here are the handlers' and fit. */
  lemma AnswersFit(s: Service, discovery: bool, logging: bool, task: Shell.Task, i: nat)
    requires Sound(s) && Shell.AnswersOk(ShellOf(s, discovery, logging), task)
    requires i < |task.answers| <= |task.dispatched| && task.dispatched <= Split(task.received)
    ensures task.answers[i].Local? ==> ReadsAsOne(task.answers[i])
    ensures !discovery || task.dispatched[i].code in s.Registered()
            ==> task.answers[i] == Local(Dispatch(s, task.dispatched[i]).0)
  {
    hide Sound, ShellOf, Framed, TableFor, Dispatch, Split, ReadsAsOne, Shell.Allowed;
    SplitFramed(task.received);
    assert task.dispatched[i] == Split(task.received)[i];
    LocalsFit(s, discovery, logging, task.dispatched[i], task.answers[i]);
  }

  /** A client has the answers to its own commands so far, and is out of step at most by a reply of the
      real HSM that is not one bare frame. */
  ghost predicate InStep(s: Service, discovery: bool, task: Shell.Task) {
    var n, wire := |task.answers|, Flatten(task.written);
    && n <= |task.dispatched| && task.dispatched <= Split(task.received)
    && (task.phase.Reading? ==> n == |Split(task.received)|)
    && (Aligned(task.written) <==> forall i | 0 <= i < n && task.answers[i].Passed? :: ReadsAsOne(task.answers[i]))
    && (!discovery ==> Aligned(task.written))
    && (Aligned(task.written) ==>
          && |Split(wire)| == n && Residue(wire) == []
          && forall i | 0 <= i < n && (!discovery || task.dispatched[i].code in s.Registered()) ::
               ReadsBack(task.dispatched[i], Local(Dispatch(s, task.dispatched[i]).0), Split(wire)[i]))
  }

  lemma TaskInStep(s: Service, discovery: bool, logging: bool, task: Shell.Task)
    requires Sound(s) && Shell.AnswersOk(ShellOf(s, discovery, logging), task)
    requires |task.answers| <= |task.dispatched| && task.dispatched <= Split(task.received)
    requires task.phase.Reading? ==> |task.answers| == |Split(task.received)|
    ensures InStep(s, discovery, task)
  {
    hide Sound, ShellOf, TableFor, Dispatch, Split, Residue, Flatten, Aligned, ReadsAsOne, ReadsBack, Shell.Allowed,
         WireOf;
    var n := |task.answers|;
    AnswersRead(task.dispatched, task.answers, task.written);
    forall i | 0 <= i < n
      ensures task.answers[i].Local? ==> ReadsAsOne(task.answers[i])
      ensures !discovery || task.dispatched[i].code in s.Registered()
              ==> task.answers[i] == Local(Dispatch(s, task.dispatched[i]).0)
    {
      AnswersFit(s, discovery, logging, task, i);
    }
  }

  /** In any interleaving of any number of clients, only a reply of the real HSM that is not one bare
      frame puts a client out of step; with discovery off none ever is, and each client's bytes split
      into the handlers' replies to its own commands, in order. */
  lemma ClientsStayInStep(s: Service, discovery: bool, logging: bool, steps: seq<Shell.Step>, t: Shell.TaskId)
    requires Sound(s) && t in Shell.After(ShellOf(s, discovery, logging), steps).tasks
    ensures InStep(s, discovery, Shell.After(ShellOf(s, discovery, logging), steps).tasks[t])
  {
    hide *;
    var cfg := ShellOf(s, discovery, logging);
    Shell.ClientsInStep(cfg, steps, t);
    Shell.TaskAnswersOk(cfg, steps, t);
    TaskInStep(s, discovery, logging, Shell.After(cfg, steps).tasks[t]);
  }
}
