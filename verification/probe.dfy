/** The key-check-value probe of the source HSM (src/hsm_probe.rs). */
module Probe {
  import opened Bytes
  import opened Framing
  import Keys

  datatype ProbeOutcome = Kcv(kcv: bytes) | KeyTypeUnknown | CommandDisabled | HsmError | UnsupportedForm | Unreachable

  datatype BvParse = BvKcv(kcv: bytes) | BvError(code: Pair) | BvMalformed

  const PROBE_HEADER: Pair := [0x50, 0x42]
  const BU: Pair := [0x42, 0x55]
  const BV: Pair := [0x42, 0x56]
  const DISABLED: Pair := [0x36, 0x38]

  predicate IsHex(s: bytes) {
    forall i | 0 <= i < |s| :: DigitValue(s[i], 16).Some?
  }

  function LengthFlag(form: bytes): byte {
    if form != [] && form[0] == Keys.U then 0x31 else if form != [] && form[0] == Keys.T then 0x32 else 0x30
  }

  /** The digits of a variant-LMK form, and whether there are as many as its prefix says. */
  predicate IsVariantForm(form: bytes) {
    if LengthFlag(form) == 0x31 then |form| == 33 && IsHex(form[1..])
    else if LengthFlag(form) == 0x32 then |form| == 49 && IsHex(form[1..])
    else |form| == 16 && IsHex(form)
  }

  const KEY_TYPES: seq<bytes> := [[0x30, 0x31], [0x30, 0x32], [0x30, 0x33], [0x30, 0x30]]

  function VariantCandidate(keyType: bytes, form: bytes): bytes {
    keyType + [LengthFlag(form)] + form + Ascii(";001")
  }

  /** bu_candidates: the payloads to try, most likely key type first. */
  function BuCandidates(form: bytes): (r: Option<seq<bytes>>)
    ensures r.Some? ==> |r.value| == 1 || |r.value| == 4
  {
    if |form| > 1 && form[0] == Keys.S then Some([Ascii("FFF") + form + Ascii(";FFF;001")])
    else if !IsVariantForm(form) then None
    else Some(seq(|KEY_TYPES|, i requires 0 <= i < |KEY_TYPES| => VariantCandidate(KEY_TYPES[i], form)))
  }

  /** A form is probed only if the handlers would read it as one whole key, or it opens a key block. */
  lemma ProbedFormsAreKeys(form: bytes)
    requires BuCandidates(form).Some? && form[0] != Keys.S
    ensures Keys.IsKey(Keys.Legacy, form)
  {
    assert LengthFlag(form) == 0x30 ==> DigitValue(form[0], 16).Some?;
  }

  /** What is sent says which form was asked about. */
  lemma CandidatesDistinct(form: bytes)
    ensures BuCandidates(form).Some? ==>
              var c := BuCandidates(form).value;
              forall i, j | 0 <= i < j < |c| :: c[i] != c[j]
  {
    if BuCandidates(form).Some? && |BuCandidates(form).value| == 4 {
      var c := BuCandidates(form).value;
      forall i | 0 <= i < 4 ensures c[i][..2] == KEY_TYPES[i] {
      }
      forall i, j | 0 <= i < j < 4 ensures c[i] != c[j] {
        assert KEY_TYPES[i][1] != KEY_TYPES[j][1];
        assert c[i][..2] != c[j][..2];
      }
    }
  }

  predicate AllHex(s: bytes) {
    forall i | 0 <= i < |s| :: s[i] as char in "0123456789ABCDEFabcdef"
  }

  lemma HexDigits(s: bytes)
    ensures IsHex(s) <==> AllHex(s)
  {
    forall i | 0 <= i < |s| ensures DigitValue(s[i], 16).Some? <==> s[i] as char in "0123456789ABCDEFabcdef" {
      HexDigit(s[i]);
    }
  }

  lemma HexDigit(b: byte)
    ensures DigitValue(b, 16).Some? <==> b as char in "0123456789ABCDEFabcdef"
  {
  }

  /** What is asked about which form: a key block as it is, under the reserved types; a variant-LMK key of
      the length its prefix says, under each of the four key types that can be claimed blind; and
      nothing about any other text. */
  lemma CandidatesMean(form: bytes)
    ensures form != [] && form[0] == 'S' as int && |form| > 1 ==>
              BuCandidates(form) == Some([Ascii("FFF") + form + Ascii(";FFF;001")])
    ensures form == [] || form[0] != 'S' as int || |form| == 1 ==>
              var flag := if form != [] && form[0] == 'U' as int then '1'
                          else if form != [] && form[0] == 'T' as int then '2' else '0';
              var digits := if flag == '0' then form else form[1..];
              && (BuCandidates(form).Some?
                  <==> |digits| == (if flag == '1' then 32 else if flag == '2' then 48 else 16) && AllHex(digits))
              && (BuCandidates(form).Some? ==>
                    BuCandidates(form).value == [
                      Code('0', '1') + [flag as int] + form + Ascii(";001"),
                      Code('0', '2') + [flag as int] + form + Ascii(";001"),
                      Code('0', '3') + [flag as int] + form + Ascii(";001"),
                      Code('0', '0') + [flag as int] + form + Ascii(";001")])
  {
    hide Ascii, IsHex, AllHex;
    HexDigits(form);
    if form != [] {
      HexDigits(form[1..]);
    }
  }

  /** parse_bv */
  function ParseBv(resp: bytes): BvParse {
    match Parse(resp)
    case None => BvMalformed
    case Some(Frame(Command(header, code, payload), _)) =>
      if header != PROBE_HEADER || code != BV || |payload| < 2 then BvMalformed
      else if payload[..2] != SUCCESS then BvError(payload[..2])
      else
        var kcv := Upper(TrimRight(payload[2..]));
        if (|kcv| == 6 || |kcv| == 16) && IsHex(kcv) then BvKcv(kcv) else BvMalformed
  }

  /** A check value as an HSM frames it is read back, with as many trailing spaces dropped as the
      frame can hold. */
  lemma FramedKcvRead(kcv: bytes, spaces: bytes, tail: bytes)
    requires (|kcv| == 6 || |kcv| == 16) && IsHex(kcv)
    requires (forall i | 0 <= i < |spaces| :: IsSpace(spaces[i])) && 6 + |kcv| + |spaces| <= MAX_BODY
    ensures ParseBv(FrameResponse(Code('P', 'B'), Code('B', 'V'), Code('0', '0'), kcv + spaces) + tail)
         == BvKcv(Upper(kcv))
  {
    ParseFramed(PROBE_HEADER, BV, SUCCESS, kcv + spaces, tail);
    assert (SUCCESS + (kcv + spaces))[2..] == kcv + spaces && (SUCCESS + (kcv + spaces))[..2] == SUCCESS;
    Trimmed(kcv, spaces);
    UpperHex(kcv);
  }

  /** Any other answer code is a refusal under that code, whatever comes with it. */
  lemma FramedRefusalRead(code: Pair, rest: bytes, tail: bytes)
    requires code != Code('0', '0') && 6 + |rest| <= MAX_BODY
    ensures ParseBv(FrameResponse(Code('P', 'B'), Code('B', 'V'), code, rest) + tail) == BvError(code)
  {
    ParseFramed(PROBE_HEADER, BV, code, rest, tail);
    assert (code + rest)[..2] == code;
  }

  lemma {:induction false} Trimmed(text: bytes, spaces: bytes)
    requires text != [] && !IsSpace(text[|text| - 1]) && (forall i | 0 <= i < |spaces| :: IsSpace(spaces[i]))
    ensures TrimRight(text + spaces) == text
  {
    if spaces == [] {
      assert text + spaces == text;
    } else {
      assert (text + spaces)[..|text + spaces| - 1] == text + spaces[..|spaces| - 1];
      Trimmed(text, spaces[..|spaces| - 1]);
    }
  }

  lemma UpperHex(s: bytes)
    requires IsHex(s)
    ensures IsHex(Upper(s))
  {
    forall i | 0 <= i < |s| ensures DigitValue(Upper(s)[i], 16).Some? {
      assert DigitValue(s[i], 16).Some?;
    }
  }

  /** What an exchange settles, if anything: any refusal but '68' leaves the next candidate to try. */
  function Decision(answer: Option<bytes>): Option<ProbeOutcome> {
    match answer
    case None => Some(Unreachable)
    case Some(resp) =>
      match ParseBv(resp)
      case BvKcv(kcv) => Some(Kcv(kcv))
      case BvError(code) => if code == DISABLED then Some(CommandDisabled) else None
      case BvMalformed => Some(HsmError)
  }

  function Request(payload: bytes): bytes {
    FrameRequest(PROBE_HEADER, BU, payload)
  }

  /** Each payload goes out as one BU frame under the probe's header. */
  lemma RequestFramed(payload: bytes)
    requires |payload| <= 65531
    ensures Parse(Request(payload)) == Some(Frame(Command(Code('P', 'B'), Code('B', 'U'), payload), 6 + |payload|))
  {
    ParseFramed(PROBE_HEADER, BU, [], payload, []);
    assert Request(payload) + [] == Request(payload) && [] + payload == payload;
  }

  /** No answer and an unreadable one end the probe; so does "68"; every other refusal leaves the next
      candidate to try. */
  lemma Decisions(resp: bytes)
    ensures Decision(None) == Some(Unreachable)
    ensures Decision(Some(resp)) ==
              match ParseBv(resp)
              case BvKcv(kcv) => Some(Kcv(kcv))
              case BvMalformed => Some(HsmError)
              case BvError(code) => if code == Code('6', '8') then Some(CommandDisabled) else None
  {
    hide ParseBv;
  }

  /** The n-th exchange may be answered differently from an earlier one with the same frame. */
  type Leg = (nat, bytes) -> Option<bytes>

  function DecisionAt(leg: Leg, candidates: seq<bytes>, i: nat): Option<ProbeOutcome>
    requires i < |candidates|
  {
    Decision(leg(i, Request(candidates[i])))
  }

  /** The probe as a value: the first decision. */
  function Probed(leg: Leg, candidates: seq<bytes>, i: nat): ProbeOutcome
    requires i <= |candidates|
    decreases |candidates| - i
  {
    if i == |candidates| then KeyTypeUnknown
    else
      match DecisionAt(leg, candidates, i)
      case Some(outcome) => outcome
      case None => Probed(leg, candidates, i + 1)
  }

  /** One frame per candidate, until a reply decides. */
  method TryCandidates(leg: Leg, c: seq<bytes>) returns (outcome: ProbeOutcome, sent: seq<bytes>)
    ensures |sent| <= |c| && (forall i | 0 <= i < |sent| :: sent[i] == Request(c[i]))
    ensures forall i | 0 <= i < |sent| - 1 :: DecisionAt(leg, c, i) == None
    ensures |sent| < |c| || outcome != KeyTypeUnknown ==> sent != [] && DecisionAt(leg, c, |sent| - 1) == Some(outcome)
    ensures outcome == Probed(leg, c, 0)
  {
    sent := [];
    hide ParseBv, Request;
    for i := 0 to |c|
      invariant |sent| == i && Probed(leg, c, 0) == Probed(leg, c, i)
      invariant forall j | 0 <= j < i :: sent[j] == Request(c[j]) && DecisionAt(leg, c, j) == None
    {
      var frame := Request(c[i]);
      sent := sent + [frame];
      var answer := leg(i, frame);
      if answer.None? {
        return Unreachable, sent;
      }
      match ParseBv(answer.value) {
        case BvKcv(kcv) =>
          return Kcv(kcv), sent;
        case BvError(code) =>
          if code == DISABLED {
            return CommandDisabled, sent;
          }
        case BvMalformed =>
          return HsmError, sent;
      }
    }
    return KeyTypeUnknown, sent;
  }

  /** At most four frames are sent, none after the reply that decides; a form that is no key sends
      none at all. */
  method ThalesKcv(leg: Leg, form: bytes) returns (outcome: ProbeOutcome, sent: seq<bytes>)
    ensures BuCandidates(form).None? ==> outcome == UnsupportedForm && sent == []
    ensures BuCandidates(form).Some? ==>
              var c := BuCandidates(form).value;
              && outcome == Probed(leg, c, 0)
              && |sent| <= |c| <= 4 && (forall i | 0 <= i < |sent| :: sent[i] == Request(c[i]))
              && (forall i | 0 <= i < |sent| - 1 :: DecisionAt(leg, c, i) == None)
              && (|sent| < |c| ==> sent != [] && DecisionAt(leg, c, |sent| - 1) == Some(outcome))
  {
    hide DecisionAt, Probed, Request, VariantCandidate, IsVariantForm;
    var candidates := BuCandidates(form);
    if candidates.None? {
      return UnsupportedForm, [];
    }
    outcome, sent := TryCandidates(leg, candidates.value);
  }

  /** A KCV comes out if and only if some candidate is answered 00 with one and every earlier one
      is refused with a code other than 68. */
  lemma {:induction false} KcvExactlyWhen(leg: Leg, candidates: seq<bytes>, from: nat, kcv: bytes)
    requires from <= |candidates|
    ensures Probed(leg, candidates, from) == Kcv(kcv)
       <==> exists i :: from <= i < |candidates|
              && leg(i, Request(candidates[i])).Some?
              && ParseBv(leg(i, Request(candidates[i])).value) == BvKcv(kcv)
              && forall j | from <= j < i :: DecisionAt(leg, candidates, j) == None
    decreases |candidates| - from
  {
    hide ParseBv, Request;
    if from < |candidates| && DecisionAt(leg, candidates, from) == None {
      KcvExactlyWhen(leg, candidates, from + 1, kcv);
    }
  }

  /** The comparable leading digits, case aside. */
  predicate KcvMatches(apc: bytes, hsm: bytes) {
    var n := if |apc| < |hsm| then |apc| else |hsm|;
    var n := if n < 6 then n else 6;
    n > 0 && SameIgnoringCase(apc[..n], hsm[..n])
  }

  /** What is compared is as many leading digits as both have, six at most, and at least one. */
  lemma MatchesOn(apc: bytes, hsm: bytes, n: nat)
    requires n <= 6 && n <= |apc| && n <= |hsm| && (n == 6 || n == |apc| || n == |hsm|)
    ensures KcvMatches(apc, hsm) <==> n > 0 && Upper(apc[..n]) == Upper(hsm[..n])
  {
    hide Upper;
  }

  /** A six-digit APC value matches a probed KCV exactly when it is that KCV's first six digits. */
  lemma MatchMeaning(apc: bytes, answer: bytes, kcv: bytes)
    requires |apc| == 6 && ParseBv(answer) == BvKcv(kcv)
    ensures KcvMatches(apc, kcv) <==> Upper(apc) == kcv[..6]
  {
    hide Parse, TrimRight, IsHex;
    var text := TrimRight(Parse(answer).value.command.payload[2..]);
    UpperIdempotent(text);
    assert apc[..6] == apc;
    assert forall i | 0 <= i < |kcv| :: UpperByte(kcv[i]) == Upper(kcv)[i] == kcv[i];
    assert Upper(kcv[..6]) == kcv[..6];
  }
}
