/** AWS Payment Cryptography as the handlers see it: deterministic operations with unknown
    results, the calls a handler made, and the reply it ended with. */
module Apc {
  import opened Bytes
  import opened Connection
  import opened Keys

  datatype MacAlgorithm = Alg1 | Alg3 | Cmac | As2805

  datatype MacScheme = Static(algorithm: MacAlgorithm)
                     | Dukpt(algorithm: MacAlgorithm, ksn: bytes, derivation: Derivation)

  datatype MacRequest = MacRequest(arn: bytes, scheme: MacScheme, message: bytes)

  datatype Verdict = Accepted | Mismatch | Failed

  datatype PinFormat = IsoFormat0 | IsoFormat1 | IsoFormat3 | IsoFormat4

  /** The PIN being spoken about: its encrypted block, and all that locates it. */
  datatype PinBlock = PinBlock(encArn: bytes, pvkArn: bytes, block: bytes, account: bytes, format: PinFormat)

  /** IBM 3624 inputs, or the Visa key index. */
  datatype PinMethod = Ibm(decimalization: bytes, validation: bytes) | VisaPvv(index: nat)

  /** What `generate_pin_data` answers: an offset, a PVV, or something else. */
  datatype PinData = Offset(digits: bytes) | Pvv(digits: bytes) | OtherData

  datatype CardRequest = CardRequest(arn: bytes, pan: bytes, expiry: bytes, service: bytes)

  datatype Call =
    | GenerateMac(mac: MacRequest)
    | VerifyMac(mac: MacRequest, value: bytes)
    | Encrypt(arn: bytes, text: bytes)
    | Decrypt(arn: bytes, text: bytes)
    | VerifyPin(pin: PinBlock, scheme: PinMethod, datum: bytes)
    | GeneratePin(pin: PinBlock, scheme: PinMethod)
    | GenerateCard(card: CardRequest)
    | VerifyCard(card: CardRequest, value: bytes)

  datatype Client = Client(
    generateMac: MacRequest -> Option<bytes>,
    verifyMac: (MacRequest, bytes) -> Verdict,
    encrypt: (bytes, bytes) -> Option<bytes>,
    decrypt: (bytes, bytes) -> Option<bytes>,
    verifyPin: (PinBlock, PinMethod, bytes) -> Verdict,
    generatePin: (PinBlock, PinMethod) -> Option<PinData>,
    generateCard: CardRequest -> Option<bytes>,
    verifyCard: (CardRequest, bytes) -> Verdict)

  /** A handler's surroundings: key resolution and the APC client. */
  datatype World = World(resolve: KeyDescriptor -> Result<bytes>, apc: Client)

  /** How a command ended. A slice out of range ends the task instead of replying. */
  datatype Outcome = Done(reply: Reply, calls: seq<Call>) | Panicked(calls: seq<Call>)

  function Success(payload: bytes, calls: seq<Call>): Outcome {
    Done(Reply(SUCCESS, payload), calls)
  }

  function Failure(e: ProxyError, calls: seq<Call>): Outcome {
    Done(Reply(ErrorCode(e), []), calls)
  }

  predicate Succeeded(o: Outcome) {
    o.Done? && o.reply.error == SUCCESS
  }

  lemma NoErrorIsSuccess(e: ProxyError)
    ensures ErrorCode(e) != SUCCESS
  {
    assert ErrorCode(e)[0] != SUCCESS[0] || ErrorCode(e)[1] != SUCCESS[1];
  }

  /** `verify_mac` turned into the handlers' reply. */
  function VerifyOutcome(verdict: Verdict, calls: seq<Call>): Outcome {
    match verdict
    case Accepted => Success([], calls)
    case Mismatch => Failure(VerificationFailed, calls)
    case Failed => Failure(ApcError, calls)
  }

  /** `&mac[..n.min(mac.len())]` */
  function Leading(mac: bytes, n: nat): bytes {
    if n <= |mac| then mac[..n] else mac
  }

  // ------------------------------------------- what the host gets for a call

  /** A reply by its two-character code. */
  function Coded(first: char, second: char, payload: bytes, calls: seq<Call>): Outcome {
    Done(Reply(Code(first, second), payload), calls)
  }

  /** A MAC made as the last call: its first `width` digits, fewer if APC has fewer. */
  function GenerateAnswer(apc: Client, req: MacRequest, width: nat, before: seq<Call>): Outcome {
    match apc.generateMac(req)
    case None => Coded('4', '1', [], before + [GenerateMac(req)])
    case Some(full) => Coded('0', '0', if |full| < width then full else full[..width], before + [GenerateMac(req)])
  }

  /** A check as the last call. */
  function VerdictAnswer(verdict: Verdict, calls: seq<Call>): Outcome {
    match verdict
    case Accepted => Coded('0', '0', [], calls)
    case Mismatch => Coded('0', '1', [], calls)
    case Failed => Coded('4', '1', [], calls)
  }

  lemma VerdictAnswered(verdict: Verdict, calls: seq<Call>)
    ensures VerifyOutcome(verdict, calls) == VerdictAnswer(verdict, calls)
  {
    ErrorCodes();
    hide ErrorCode, Code;
  }

  /** The MACs that APC verifies only whole. A static CMAC key is taken to be an AES key, as the
      handlers take it. */
  predicate AesCmac(scheme: MacScheme) {
    match scheme
    case Static(algorithm) => algorithm.Cmac?
    case Dukpt(algorithm, _, derivation) => algorithm.Cmac? && derivation.Aes128?
  }

  /** How many digits `verify_mac` takes: all 32 of an AES CMAC, 8 or 16 of any other MAC. */
  predicate Verifiable(scheme: MacScheme, digits: nat) {
    if AesCmac(scheme) then digits == 32 else digits == 8 || digits == 16
  }

  /** APC's MAC service: `verify_mac` accepts the leading digits of the MAC that `generate_mac`
      computes for the same request, and nothing of another length or that differs from them by
      more than letter case. */
  ghost predicate MacContract(apc: Client) {
    && (forall req: MacRequest, n: nat | Verifiable(req.scheme, n) ::
          apc.generateMac(req).Some? && n <= |apc.generateMac(req).value|
          ==> apc.verifyMac(req, apc.generateMac(req).value[..n]) == Accepted)
    && (forall req: MacRequest, mac: bytes :: apc.verifyMac(req, mac) == Accepted ==>
          && Verifiable(req.scheme, |mac|) && apc.generateMac(req).Some?
          && SameIgnoringCase(mac, Leading(apc.generateMac(req).value, |mac|)))
  }

  /** A service whose MACs all have one length, as a block cipher's do. */
  ghost predicate MacLength(apc: Client, n: nat) {
    forall req: MacRequest :: apc.generateMac(req).Some? ==> |apc.generateMac(req).value| == n
  }
}
