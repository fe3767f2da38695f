/** The key_mappings pass of the verify-only run (src/verify.rs). */
module Verify {
  import opened Bytes
  import Probe

  datatype KeyCheck = Found(kcv: bytes) | Unusable

  datatype Mapping = Mapping(form: bytes, target: bytes)

  /** A report line: about one mapping, or the one announcing that probing stops. */
  datatype Line = About(form: bytes) | Stopped

  /** The control plane answers for a target, and the n-th probe for a key form. */
  datatype Env = Env(check: bytes -> KeyCheck, probe: (nat, bytes) -> Probe.ProbeOutcome)

  class Report {
    var ok: seq<Line>
    var warnings: seq<Line>
    var errors: seq<Line>

    constructor ()
      ensures ok == [] && warnings == [] && errors == []
    {
      ok, warnings, errors := [], [], [];
    }

    method Pass(line: Line)
      modifies this`ok
      ensures ok == old(ok) + [line]
      ensures Labels() == old(Labels()) + LabelOf(line) && Stops() == old(Stops()) + StopOf(line)
    {
      PushLine(ok, line);
      ok := ok + [line];
    }

    method Warn(line: Line)
      modifies this`warnings
      ensures warnings == old(warnings) + [line]
      ensures Labels() == old(Labels()) + LabelOf(line) && Stops() == old(Stops()) + StopOf(line)
    {
      PushLine(warnings, line);
      warnings := warnings + [line];
    }

    method Fail(line: Line)
      modifies this`errors
      ensures errors == old(errors) + [line]
      ensures Labels() == old(Labels()) + LabelOf(line) && Stops() == old(Stops()) + StopOf(line)
    {
      PushLine(errors, line);
      errors := errors + [line];
    }

    /** The key forms spoken about, over all three lists, as often as each is. */
    ghost function Labels(): multiset<bytes>
      reads this
    {
      LabelsIn(ok) + LabelsIn(warnings) + LabelsIn(errors)
    }

    ghost function Stops(): nat
      reads this
    {
      StopsIn(ok) + StopsIn(warnings) + StopsIn(errors)
    }
  }

  ghost function LabelOf(line: Line): multiset<bytes> {
    if line.About? then multiset{line.form} else multiset{}
  }

  ghost function StopOf(line: Line): nat {
    if line.Stopped? then 1 else 0
  }

  ghost function LabelsIn(lines: seq<Line>): multiset<bytes> {
    if lines == [] then multiset{} else LabelsIn(lines[..|lines| - 1]) + LabelOf(lines[|lines| - 1])
  }

  ghost function StopsIn(lines: seq<Line>): nat {
    if lines == [] then 0 else StopsIn(lines[..|lines| - 1]) + StopOf(lines[|lines| - 1])
  }

  lemma PushLine(lines: seq<Line>, line: Line)
    ensures LabelsIn(lines + [line]) == LabelsIn(lines) + LabelOf(line)
    ensures StopsIn(lines + [line]) == StopsIn(lines) + StopOf(line)
  {
    assert (lines + [line])[..|lines|] == lines;
  }

  ghost function Names(mappings: seq<Mapping>): multiset<bytes> {
    if mappings == [] then multiset{}
    else Names(mappings[..|mappings| - 1]) + multiset{mappings[|mappings| - 1].form}
  }

  /** The mappings whose APC key is usable, in order: the ones there is something to probe for. */
  function Usable(env: Env, mappings: seq<Mapping>): seq<Mapping> {
    if mappings == [] then []
    else
      var last := mappings[|mappings| - 1];
      Usable(env, mappings[..|mappings| - 1]) + if env.check(last.target).Found? then [last] else []
  }

  /** Outcomes after which no other mapping is probed. */
  predicate Fatal(outcome: Probe.ProbeOutcome) {
    outcome.CommandDisabled? || outcome.Unreachable?
  }

  /** The n-th probe found a key whose check value is not the one APC reports. */
  predicate Mismatched(env: Env, n: nat, m: Mapping) {
    && env.check(m.target).Found? && env.probe(n, m.form).Kcv?
    && !Probe.KcvMatches(env.check(m.target).kcv, env.probe(n, m.form).kcv)
  }

  /** The targets in the order they are first met, each once. */
  function Targets(mappings: seq<Mapping>): seq<bytes> {
    if mappings == [] then []
    else
      var before, a := Targets(mappings[..|mappings| - 1]), mappings[|mappings| - 1].target;
      if a in before then before else before + [a]
  }

  predicate Distinct(s: seq<bytes>) {
    forall i, j | 0 <= i < j < |s| :: s[i] != s[j]
  }

  lemma {:induction false} EachTargetOnce(mappings: seq<Mapping>)
    ensures Distinct(Targets(mappings))
    ensures forall a :: a in Targets(mappings) <==> exists i :: 0 <= i < |mappings| && mappings[i].target == a
  {
    if mappings != [] {
      var n := |mappings| - 1;
      EachTargetOnce(mappings[..n]);
      forall a | a in Targets(mappings) ensures exists i :: 0 <= i < |mappings| && mappings[i].target == a {
        if a in Targets(mappings[..n]) {
          var i :| 0 <= i < n && mappings[..n][i].target == a;
          assert mappings[i].target == a;
        } else {
          assert mappings[n].target == a;
        }
      }
      forall i | 0 <= i < |mappings| ensures mappings[i].target in Targets(mappings) {
        if i < n {
          assert mappings[..n][i].target == mappings[i].target;
        }
      }
    }
  }

  function Known(env: Env, targets: seq<bytes>): map<bytes, KeyCheck> {
    map a | a in targets :: env.check(a)
  }

  /** The last of these probes had a fatal outcome. */
  predicate Halted(env: Env, probed: seq<Mapping>) {
    probed != [] && Fatal(env.probe(|probed| - 1, probed[|probed| - 1].form))
  }

  /** The mappings probed out of a list: all up to the first fatal outcome. */
  function UntilFatal(env: Env, usable: seq<Mapping>): seq<Mapping> {
    if usable == [] then []
    else
      var before := UntilFatal(env, usable[..|usable| - 1]);
      if Halted(env, before) then before else before + [usable[|usable| - 1]]
  }

  /** Probing goes through the usable keys in order, ends at the first fatal outcome and only there. */
  lemma {:induction false} NoProbeAfterFatal(env: Env, usable: seq<Mapping>)
    ensures var probed := UntilFatal(env, usable);
            && probed <= usable && (Halted(env, probed) || probed == usable)
            && forall i | 0 <= i < |probed| - 1 :: !Fatal(env.probe(i, probed[i].form))
  {
    hide Fatal;
    if usable != [] {
      var shorter := usable[..|usable| - 1];
      NoProbeAfterFatal(env, shorter);
      var before := UntilFatal(env, shorter);
      if !Halted(env, before) {
        var last := usable[|usable| - 1];
        assert usable == before + [last];
        forall i | 0 <= i < |before| ensures !Fatal(env.probe(i, usable[i].form)) {
          assert usable[i] == before[i];
        }
      }
    }
  }

  function ProbedOf(env: Env, configured: bool, mappings: seq<Mapping>): seq<Mapping> {
    if configured then UntilFatal(env, Usable(env, mappings)) else []
  }

  lemma UsableStep(env: Env, mappings: seq<Mapping>, i: nat)
    requires i < |mappings|
    ensures Usable(env, mappings[..i + 1])
         == Usable(env, mappings[..i]) + (if env.check(mappings[i].target).Found? then [mappings[i]] else [])
    ensures Targets(mappings[..i + 1])
         == if mappings[i].target in Targets(mappings[..i]) then Targets(mappings[..i])
            else Targets(mappings[..i]) + [mappings[i].target]
  {
    assert mappings[..i + 1][..i] == mappings[..i];
  }

  lemma NamesStep(mappings: seq<Mapping>, i: nat)
    requires i < |mappings|
    ensures Names(mappings[..i + 1]) == Names(mappings[..i]) + multiset{mappings[i].form}
  {
    assert mappings[..i + 1][..i] == mappings[..i];
  }

  lemma UntilFatalStep(env: Env, usable: seq<Mapping>, m: Mapping)
    ensures UntilFatal(env, usable + [m])
         == if Halted(env, UntilFatal(env, usable)) then UntilFatal(env, usable) else UntilFatal(env, usable) + [m]
  {
    assert (usable + [m])[..|usable|] == usable;
  }

  lemma ProbingStep(env: Env, configured: bool, mappings: seq<Mapping>, i: nat)
    requires i < |mappings|
    ensures ProbedOf(env, configured, mappings[..i + 1])
         == var before := ProbedOf(env, configured, mappings[..i]);
            if configured && !Halted(env, before) && env.check(mappings[i].target).Found? then before + [mappings[i]]
            else before
  {
    UsableStep(env, mappings, i);
    UntilFatalStep(env, Usable(env, mappings[..i]), mappings[i]);
    assert Usable(env, mappings[..i]) + [] == Usable(env, mappings[..i]);
    hide Usable, UntilFatal, Halted;
  }

  lemma HaltStep(env: Env, probed: seq<Mapping>, m: Mapping)
    ensures Halted(env, probed + [m]) == Fatal(env.probe(|probed|, m.form))
  {
    assert (probed + [m])[..|probed|] == probed;
  }

  /** The three lists of a report. */
  datatype List = Passes | Warnings | Errors

  /** What a probe's outcome adds to each list: a match passes and a mismatch fails; what could not be
      compared is warned about; and a fatal outcome is announced once, the key itself passing on APC's
      word alone. */
  function JudgedLines(list: List, form: bytes, kcv: bytes, outcome: Probe.ProbeOutcome): seq<Line> {
    match outcome
    case Kcv(hsm) => if list == (if Probe.KcvMatches(kcv, hsm) then Passes else Errors) then [About(form)] else []
    case UnsupportedForm | KeyTypeUnknown | HsmError => if list == Warnings then [About(form)] else []
    case CommandDisabled | Unreachable =>
      match list
      case Passes => [About(form)]
      case Warnings => [Stopped]
      case Errors => []
  }

  /** What one mapping adds, this being the n-th probe if there is one: an unusable key fails, and one
      that is not probed passes. */
  function LinesFor(list: List, env: Env, m: Mapping, active: bool, n: nat): seq<Line> {
    match env.check(m.target)
    case Unusable => if list == Errors then [About(m.form)] else []
    case Found(kcv) =>
      if active then JudgedLines(list, m.form, kcv, env.probe(n, m.form))
      else if list == Passes then [About(m.form)]
      else []
  }

  lemma ErrorLines(env: Env, m: Mapping, active: bool, n: nat)
    ensures LinesFor(Errors, env, m, active, n)
         == if env.check(m.target).Unusable? || (active && Mismatched(env, n, m)) then [About(m.form)] else []
  {
    hide Probe.KcvMatches;
  }

  /** All the lines of a list, in the order of the mappings. */
  function LinesOf(list: List, env: Env, configured: bool, mappings: seq<Mapping>): seq<Line> {
    if mappings == [] then []
    else
      var front, last := mappings[..|mappings| - 1], mappings[|mappings| - 1];
      var probed := ProbedOf(env, configured, front);
      LinesOf(list, env, configured, front)
      + LinesFor(list, env, last, configured && !Halted(env, probed), |probed|)
  }

  lemma LinesStep(list: List, env: Env, configured: bool, mappings: seq<Mapping>, i: nat)
    requires i < |mappings|
    ensures var probed := ProbedOf(env, configured, mappings[..i]);
            LinesOf(list, env, configured, mappings[..i + 1])
            == LinesOf(list, env, configured, mappings[..i])
               + LinesFor(list, env, mappings[i], configured && !Halted(env, probed), |probed|)
  {
    assert mappings[..i + 1][..i] == mappings[..i];
  }

  /** Probes already made stay as they are when more mappings follow. */
  lemma {:induction false} ProbedGrows(env: Env, configured: bool, mappings: seq<Mapping>, i: nat)
    requires i <= |mappings|
    ensures ProbedOf(env, configured, mappings[..i]) <= ProbedOf(env, configured, mappings)
    decreases |mappings| - i
  {
    if i == |mappings| {
      assert mappings[..i] == mappings;
    } else {
      ProbingStep(env, configured, mappings, i);
      ProbedGrows(env, configured, mappings, i + 1);
      hide ProbedOf, Halted;
    }
  }

  /** The n-th of these probes found another key than APC's. */
  ghost predicate MismatchOf(env: Env, probed: seq<Mapping>, form: bytes) {
    exists n :: 0 <= n < |probed| && probed[n].form == form && Mismatched(env, n, probed[n])
  }

  ghost predicate UnusableOf(env: Env, mappings: seq<Mapping>, form: bytes) {
    exists i :: 0 <= i < |mappings| && mappings[i].form == form && env.check(mappings[i].target).Unusable?
  }

  /** The error lines name exactly the forms whose key is unusable or whose probe found another key. */
  lemma {:induction false} ErrorsName(env: Env, configured: bool, mappings: seq<Mapping>, form: bytes)
    ensures About(form) in LinesOf(Errors, env, configured, mappings)
       <==> UnusableOf(env, mappings, form) || MismatchOf(env, ProbedOf(env, configured, mappings), form)
  {
    if mappings == [] {
      assert ProbedOf(env, configured, mappings) == [];
    } else {
      var front, last := mappings[..|mappings| - 1], mappings[|mappings| - 1];
      var before, after := ProbedOf(env, configured, front), ProbedOf(env, configured, mappings);
      assert mappings == front + [last] && mappings[..|front|] == front && mappings[..|front| + 1] == mappings;
      ErrorsName(env, configured, front, form);
      LinesStep(Errors, env, configured, mappings, |front|);
      ErrorLines(env, last, configured && !Halted(env, before), |before|);
      ProbingStep(env, configured, mappings, |front|);
      UnusableStep(env, front, last, form);
      MismatchOfStep(env, before, last, form);
      hide LinesOf, LinesFor, ProbedOf, Halted, Mismatched, UnusableOf, MismatchOf;
    }
  }

  lemma UnusableStep(env: Env, front: seq<Mapping>, last: Mapping, form: bytes)
    ensures UnusableOf(env, front + [last], form)
       <==> UnusableOf(env, front, form) || (last.form == form && env.check(last.target).Unusable?)
  {
    var all := front + [last];
    if UnusableOf(env, front, form) {
      var i :| 0 <= i < |front| && front[i].form == form && env.check(front[i].target).Unusable?;
      assert all[i] == front[i];
    }
    if last.form == form && env.check(last.target).Unusable? {
      assert all[|front|] == last;
    }
  }

  lemma MismatchOfStep(env: Env, before: seq<Mapping>, last: Mapping, form: bytes)
    ensures MismatchOf(env, before + [last], form)
       <==> MismatchOf(env, before, form) || (last.form == form && Mismatched(env, |before|, last))
  {
    hide Mismatched;
    var all := before + [last];
    if MismatchOf(env, before, form) {
      var n :| 0 <= n < |before| && before[n].form == form && Mismatched(env, n, before[n]);
      assert all[n] == before[n];
    }
    if last.form == form && Mismatched(env, |before|, last) {
      assert all[|before|] == last;
    }
  }

  lemma KnownStep(env: Env, targets: seq<bytes>, a: bytes)
    ensures Known(env, targets + [a]) == Known(env, targets)[a := env.check(a)]
    ensures a in Known(env, targets) <==> a in targets
    ensures a in targets ==> Known(env, targets)[a] == env.check(a)
  {
  }

  /** What a usable key's probe adds to the report, one line about the mapping in every case. */
  method Judge(report: Report, form: bytes, kcv: bytes, outcome: Probe.ProbeOutcome)
    modifies report
    ensures report.Labels() == old(report.Labels()) + multiset{form}
    ensures report.Stops() == old(report.Stops()) + if Fatal(outcome) then 1 else 0
    ensures report.ok == old(report.ok) + JudgedLines(Passes, form, kcv, outcome)
    ensures report.warnings == old(report.warnings) + JudgedLines(Warnings, form, kcv, outcome)
    ensures report.errors == old(report.errors) + JudgedLines(Errors, form, kcv, outcome)
  {
    hide Report.Labels, Report.Stops, Probe.KcvMatches;
    match outcome {
      case Kcv(hsm) =>
        if Probe.KcvMatches(kcv, hsm) {
          report.Pass(About(form));
        } else {
          report.Fail(About(form));
        }
      case UnsupportedForm =>
        report.Warn(About(form));
      case KeyTypeUnknown =>
        report.Warn(About(form));
      case HsmError =>
        report.Warn(About(form));
      case CommandDisabled =>
        report.Warn(Stopped);
        report.Pass(About(form));
      case Unreachable =>
        report.Warn(Stopped);
        report.Pass(About(form));
    }
  }

  /** The memoised check of one target. */
  method Lookup(env: Env, memo: map<bytes, KeyCheck>, checked: seq<bytes>, a: bytes)
    returns (memo': map<bytes, KeyCheck>, checked': seq<bytes>, known: KeyCheck)
    requires memo == Known(env, checked)
    ensures checked' == (if a in checked then checked else checked + [a])
    ensures memo' == Known(env, checked') && known == env.check(a)
  {
    KnownStep(env, checked, a);
    memo', checked' := memo, checked;
    if a !in memo {
      memo' := memo[a := env.check(a)];
      checked' := checked + [a];
    }
    known := memo'[a];
  }

  /** One mapping's report, given what is known of its target. Only a usable key is probed. */
  method ReportOne(env: Env, report: Report, m: Mapping, known: KeyCheck, active: bool, probed: seq<Mapping>)
    returns (active': bool, probed': seq<Mapping>)
    requires known == env.check(m.target) && (active ==> !Halted(env, probed))
    modifies report
    ensures probed' == (if active && known.Found? then probed + [m] else probed)
    ensures active' == (active && !Halted(env, probed'))
    ensures report.Labels() == old(report.Labels()) + multiset{m.form}
    ensures report.Stops() == old(report.Stops()) + if active && !active' then 1 else 0
    ensures report.ok == old(report.ok) + LinesFor(Passes, env, m, active, |probed|)
    ensures report.warnings == old(report.warnings) + LinesFor(Warnings, env, m, active, |probed|)
    ensures report.errors == old(report.errors) + LinesFor(Errors, env, m, active, |probed|)
  {
    HaltStep(env, probed, m);
    hide Report.Labels, Report.Stops, Probe.KcvMatches, Halted, Fatal;
    active', probed' := active, probed;
    match known {
      case Found(kcv) =>
        if active {
          var outcome := env.probe(|probed|, m.form);
          probed' := probed + [m];
          Judge(report, m.form, kcv, outcome);
          active' := !Fatal(outcome);
        } else {
          report.Pass(About(m.form));
        }
      case Unusable =>
        report.Fail(About(m.form));
    }
  }

  lemma Reassociate(a: multiset<bytes>, b: multiset<bytes>, c: multiset<bytes>)
    ensures (a + b) + c == a + (b + c)
  {
  }

  lemma AppendLines(a: seq<Line>, b: seq<Line>, c: seq<Line>)
    ensures (a + b) + c == a + (b + c)
  {
  }

  /** One turn of the loop: the target looked up, the key probed if it is to be, the lines added. */
  method CheckOne(env: Env, configured: bool, mappings: seq<Mapping>, i: nat, report: Report,
                  memo: map<bytes, KeyCheck>, checked: seq<bytes>, active: bool, probed: seq<Mapping>)
    returns (memo': map<bytes, KeyCheck>, checked': seq<bytes>, active': bool, probed': seq<Mapping>)
    requires i < |mappings| && checked == Targets(mappings[..i]) && memo == Known(env, checked)
    requires probed == ProbedOf(env, configured, mappings[..i]) && active == (configured && !Halted(env, probed))
    modifies report
    ensures checked' == Targets(mappings[..i + 1]) && memo' == Known(env, checked')
    ensures probed' == ProbedOf(env, configured, mappings[..i + 1])
    ensures active' == (configured && !Halted(env, probed')) && (active' ==> active)
    ensures report.Labels() == old(report.Labels()) + multiset{mappings[i].form}
    ensures report.Stops() == old(report.Stops()) + if active && !active' then 1 else 0
    ensures Lists(report) == old(Lists(report)).With(env, mappings[i], active, |probed|)
  {
    hide Targets, Known, ProbedOf, Halted, Report.Labels, Report.Stops, LinesFor;
    UsableStep(env, mappings, i);
    ProbingStep(env, configured, mappings, i);
    var known;
    memo', checked', known := Lookup(env, memo, checked, mappings[i].target);
    active', probed' := ReportOne(env, report, mappings[i], known, active, probed);
  }

  lemma NothingSeen(env: Env, configured: bool, mappings: seq<Mapping>, labels: multiset<bytes>, told: Told)
    ensures Targets(mappings[..0]) == [] && Known(env, []) == map[]
    ensures ProbedOf(env, configured, mappings[..0]) == [] && !Halted(env, [])
    ensures labels == labels + Names(mappings[..0]) && told == told.After(env, configured, mappings[..0])
  {
  }

  /** What a report's lists hold. */
  datatype Told = Told(ok: seq<Line>, warnings: seq<Line>, errors: seq<Line>) {
    function After(env: Env, configured: bool, mappings: seq<Mapping>): Told {
      Told(ok + LinesOf(Passes, env, configured, mappings), warnings + LinesOf(Warnings, env, configured, mappings),
           errors + LinesOf(Errors, env, configured, mappings))
    }

    function With(env: Env, m: Mapping, active: bool, n: nat): Told {
      Told(ok + LinesFor(Passes, env, m, active, n), warnings + LinesFor(Warnings, env, m, active, n),
           errors + LinesFor(Errors, env, m, active, n))
    }
  }

  /** What the lines of one more mapping make of a report that told of the first `i`. */
  lemma OneMoreTold(env: Env, configured: bool, mappings: seq<Mapping>, i: nat, labels: multiset<bytes>, told: Told)
    requires i < |mappings|
    ensures (labels + Names(mappings[..i])) + multiset{mappings[i].form} == labels + Names(mappings[..i + 1])
    ensures var probed := ProbedOf(env, configured, mappings[..i]);
            told.After(env, configured, mappings[..i])
              .With(env, mappings[i], configured && !Halted(env, probed), |probed|)
            == told.After(env, configured, mappings[..i + 1])
  {
    NamesStep(mappings, i);
    Reassociate(labels, Names(mappings[..i]), multiset{mappings[i].form});
    hide Names, LinesOf, LinesFor, ProbedOf, Halted;
    var probed := ProbedOf(env, configured, mappings[..i]);
    var active := configured && !Halted(env, probed);
    forall list: List {
      LinesStep(list, env, configured, mappings, i);
    }
    AppendLines(told.ok, LinesOf(Passes, env, configured, mappings[..i]),
                LinesFor(Passes, env, mappings[i], active, |probed|));
    AppendLines(told.warnings, LinesOf(Warnings, env, configured, mappings[..i]),
                LinesFor(Warnings, env, mappings[i], active, |probed|));
    AppendLines(told.errors, LinesOf(Errors, env, configured, mappings[..i]),
                LinesFor(Errors, env, mappings[i], active, |probed|));
  }

  lemma AllTold(mappings: seq<Mapping>)
    ensures mappings[..|mappings|] == mappings
  {
  }

  function Lists(report: Report): Told
    reads report
  {
    Told(report.ok, report.warnings, report.errors)
  }

  /** Every distinct target is checked once, with its answer kept; usable keys are probed in order
      up to the first fatal outcome; every mapping gets exactly one line, plus one notice if a probe
      was fatal; and each list holds the lines that belong there, in order. */
  method CheckMappings(env: Env, configured: bool, mappings: seq<Mapping>, report: Report)
    returns (memo: map<bytes, KeyCheck>, checked: seq<bytes>, active: bool, probed: seq<Mapping>)
    modifies report
    ensures checked == Targets(mappings) && memo == Known(env, checked)
    ensures probed == ProbedOf(env, configured, mappings) && active == (configured && !Halted(env, probed))
    ensures report.Labels() == old(report.Labels()) + Names(mappings)
    ensures report.Stops() == old(report.Stops()) + if Halted(env, probed) then 1 else 0
    ensures Lists(report) == old(Lists(report)).After(env, configured, mappings)
  {
    hide *;
    memo, checked, active, probed := map[], [], configured, [];
    ghost var labels, told := report.Labels(), Lists(report);
    NothingSeen(env, configured, mappings, labels, told);
    for i := 0 to |mappings|
      invariant checked == Targets(mappings[..i]) && memo == Known(env, checked)
      invariant probed == ProbedOf(env, configured, mappings[..i]) && active == (configured && !Halted(env, probed))
      invariant report.Labels() == labels + Names(mappings[..i])
      invariant report.Stops() == old(report.Stops()) + if configured && !active then 1 else 0
      invariant Lists(report) == told.After(env, configured, mappings[..i])
    {
      OneMoreTold(env, configured, mappings, i, labels, told);
      memo, checked, active, probed :=
        CheckOne(env, configured, mappings, i, report, memo, checked, active, probed);
    }
    AllTold(mappings);
    Unconfigured(env, configured, mappings);
  }

  lemma Unconfigured(env: Env, configured: bool, mappings: seq<Mapping>)
    ensures Halted(env, ProbedOf(env, configured, mappings)) ==> configured
  {
  }
}
