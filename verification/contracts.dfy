/** The contracts assumed of APC can be met, all at once; and inputs on which the laws that depend
    on the length of APC's MAC do fail. */
module Contracts {
  import opened Bytes
  import opened Keys
  import opened Apc
  import opened Connection
  import BlockCipher
  import Cvv
  import DukptMac
  import LegacyMac
  import Mac
  import MacTranslate
  import PinChange
  import Proxy
  import Registry

  /** The digit '0', `n` times. */
  function Noughts(n: nat): (z: bytes)
    ensures |z| == n
  {
    seq(n, _ => 0x30)
  }

  function MadeFor(scheme: PinMethod): PinData {
    if scheme.Ibm? then Offset(Noughts(4)) else Pvv(Noughts(4))
  }

  /** A service whose MACs are `n` noughts and whose ciphers only change letter case. */
  function Sample(n: nat): Client {
    Client(
      _ => Some(Noughts(n)),
      (req: MacRequest, mac: bytes) =>
        if Verifiable(req.scheme, |mac|) && |mac| <= n && mac == Noughts(|mac|) then Accepted else Mismatch,
      (_, text) => Some(Upper(text)),
      (_, text) => Some(Upper(text)),
      (_, _, datum) => if datum == Noughts(4) then Accepted else Mismatch,
      (_, scheme) => Some(MadeFor(scheme)),
      _ => Some(Noughts(3)),
      (_, value) => if value == Noughts(3) then Accepted else Mismatch)
  }

  /** One service meets every contract, whatever the length of its MACs. */
  lemma ContractsConsistent(n: nat)
    ensures MacContract(Sample(n)) && BlockCipher.CipherContract(Sample(n))
    ensures PinChange.PinContract(Sample(n)) && Cvv.CardContract(Sample(n)) && MacLength(Sample(n), n)
  {
    forall k: nat | k <= n ensures Noughts(n)[..k] == Noughts(k) {
    }
    forall text ensures Upper(Upper(text)) == Upper(text) {
      UpperIdempotent(text);
    }
  }

  function SampleWorld(n: nat): World {
    World(_ => Ok([]), Sample(n))
  }

  /** So there is a service whose clients decode every reply. */
  lemma SoundServiceExists(n: nat, handlers: seq<Registry.Handler>)
    requires n >= 16
    ensures Proxy.Sound(Proxy.Service(SampleWorld(n), handlers, _ => Reply(SUCCESS, [])))
  {
    ContractsConsistent(n);
    hide MacContract, BlockCipher.CipherContract, PinChange.PinContract, Cvv.CardContract;
  }

  const KEY: bytes := Noughts(16)
  const BDK: bytes := Noughts(32)

  /** The M6 request for an empty message with this algorithm. */
  function EmptyM6(algo: byte): bytes {
    Request(algo).AsM6()
  }

  function Request(algo: byte): MacTranslate.MyWire {
    var leg := MacTranslate.LegWire(false, algo, 0x31, Noughts(3), KEY);
    MacTranslate.MyWire(leg, leg, Noughts(4), [])
  }

  lemma RequestPrintable(algo: byte)
    requires algo as char in {'1', '3', '6'}
    ensures Request(algo).Printable()
  {
    var s := Noughts(4);
    assert s[..3] == Noughts(3) && s[..3][..2] == Noughts(2) && s[..3][..2][..1] == Noughts(1);
    assert s[..3][..2][..1][..0] == [];
    assert DigitsValue(Noughts(1), 16) == Some(0);
    assert DigitsValue(Noughts(2), 16) == Some(0);
    assert DigitsValue(Noughts(3), 16) == Some(0);
    assert DigitsValue(s, 16) == Some(0);
  }

  /** With two-digit MACs, M6's reply is not accepted by M8 although APC keeps its contract. */
  lemma ShortMacNotVerified()
    ensures MacContract(Sample(2))
    ensures var made := Mac.Handle(SampleWorld(2), Mac.M6, false, EmptyM6(0x31));
            Succeeded(made) && !Succeeded(Mac.Handle(SampleWorld(2), Mac.M6, true, EmptyM6(0x31) + made.reply.payload))
  {
    ContractsConsistent(2);
    RequestPrintable(0x31);
    MacTranslate.M6Printed(Request(0x31));
    hide MacTranslate.MyWire.AsM6, Mac.M6From, MacContract, Noughts;
    Mac.GenerateThenVerify(SampleWorld(2), Mac.M6, EmptyM6(0x31), Noughts(2));
  }

  /** The first eight digits of a 32-digit CMAC, which M8 accepts and MY refuses. */
  lemma WholeCmacRefusedByMy()
    ensures MacContract(Sample(32))
    ensures Succeeded(Mac.Handle(SampleWorld(32), Mac.M6, true, EmptyM6(0x36) + Noughts(8)))
    ensures MacTranslate.HandleMy(SampleWorld(32), Request(0x36).Print(Noughts(8))).reply.error != SUCCESS
  {
    ContractsConsistent(32);
    RequestPrintable(0x36);
    assert Noughts(32)[..8] == Noughts(8);
    hide Noughts, MacTranslate.MyWire.AsM6, MacTranslate.MyWire.Print, Mac.Handle, MacTranslate.HandleMy;
    MacTranslate.OnlyM8TakesWholeCmac(SampleWorld(32), Request(0x36), Noughts(32));
  }

  /** A GW request for an AES DUKPT CMAC of size '0' over an empty message. */
  function GwRequest(): DukptMac.GwWire {
    DukptMac.GwWire(false, false, 0x36, 0x31, BDK, 0x30, [0x31, 0x38], Noughts(24), Noughts(4), [], [])
  }

  lemma GwRequestPrintable()
    ensures GwRequest().Printable() && DerivationOf(GwRequest().ksn).Aes128?
  {
    RequestPrintable(0x36);
    assert [0x31, 0x38][..1] == [0x31] && [0x31][..0] == [];
    assert DigitsValue([0x31], 16) == Some(1);
    assert DigitsValue([0x31, 0x38], 16) == Some(24);
  }

  /** GW's own reply for it, eight digits of a 32-digit CMAC, which GW refuses to verify. */
  lemma WholeCmacRefusedByGw()
    ensures MacContract(Sample(32))
    ensures var payload := GwRequest().Print([]);
            var made := DukptMac.HandleGw(SampleWorld(32), payload);
            && Succeeded(made) && made.reply.payload == Noughts(8)
            && !Succeeded(DukptMac.HandleGw(SampleWorld(32), [0x31] + (payload[1..] + made.reply.payload)))
  {
    ContractsConsistent(32);
    GwRequestPrintable();
    DukptMac.GwRoundTrip(GwRequest(), []);
    assert Noughts(32)[..8] == Noughts(8);
    hide Noughts, DukptMac.GwWire.Print, DukptMac.GwWire.Printable, DukptMac.BodyFrom, MacContract;
    DukptMac.GwGenerateThenVerify(SampleWorld(32), GwRequest().Print([]), Noughts(32));
  }

  /** With two-digit CMACs, verifying any eight digits ends the task without a reply. */
  lemma ShortCmacPanics(mac: bytes)
    requires |mac| == 8
    ensures Mac.Handle(SampleWorld(2), Mac.M6, true, EmptyM6(0x36) + mac).Panicked?
  {
    RequestPrintable(0x36);
    MacTranslate.M6Printed(Request(0x36));
    Mac.RequestAppend(Mac.M6, EmptyM6(0x36), mac);
    hide MacTranslate.MyWire.AsM6, Mac.M6From, Noughts;
    Mac.PanicsExactlyWhen(SampleWorld(2), Mac.M6, EmptyM6(0x36) + mac);
  }

  function MaReply(): Reply {
    LegacyMac.HandleLegacy(SampleWorld(2), LegacyMac.MA, KEY).reply
  }

  function McReply(mac: bytes): Reply {
    LegacyMac.HandleLegacy(SampleWorld(2), LegacyMac.MC, KEY + mac).reply
  }

  lemma MaAnswers()
    ensures MaReply() == Reply(SUCCESS, Noughts(2))
  {
    KeyAppend(Legacy, KEY, []);
    assert KEY + [] == KEY;
    hide KeyField;
  }

  lemma McRefuses(mac: bytes)
    requires |mac| < 8
    ensures McReply(mac) == Reply(ErrorCode(MalformedPayload), [])
  {
    KeyAppend(Legacy, KEY, mac);
    hide KeyField;
  }

  /** With two-digit MACs, MA's reply for empty data put after its key is no MC request at all. */
  lemma ShortLegacyMacRefused()
    ensures MaReply() == Reply(SUCCESS, Noughts(2))
    ensures McReply(MaReply().payload) == Reply(ErrorCode(MalformedPayload), [])
  {
    MaAnswers();
    McRefuses(Noughts(2));
    hide *;
  }
}
