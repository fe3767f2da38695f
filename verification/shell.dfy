/** The concurrent shell of src/server.rs as interleaved steps: the accept loop and its permits,
    the connection tasks, the process-global request counter, and the two-lock discovery log. */
module Shell {
  import opened Bytes
  import opened Framing
  import opened Connection

  const MAX_CONCURRENT_CONNECTIONS: nat := 1024

  /** `AtomicU64` wraps here. */
  const U64: nat := 0x1_0000_0000_0000_0000

  type TaskId = nat

  /** `permits`: the replies the handlers may give to a command. */
  datatype Config = Config(
    registered: set<Pair>, discovery: bool, logging: bool, permits: (Command, Reply) -> bool)

  /** An unhandled command of this code is to be logged. */
  predicate Due(cfg: Config, code: Pair) {
    code !in cfg.registered && cfg.discovery && cfg.logging
  }

  /** What the proxy may answer a command with. */
  predicate Allowed(cfg: Config, cmd: Command, response: Response) {
    if cmd.code in cfg.registered then response.Local? && cfg.permits(cmd, response.reply)
    else if cfg.discovery then response.Passed? || response == Local(Reply(CODE_INTERNAL, []))
    else response == Local(Reply(CODE_DISABLED, []))
  }

  /** Where a connection task stands between two of its atomic actions. */
  datatype Phase =
    | Reading                                          // waiting for bytes
    | Arrived                                          // bytes appended, cap not checked yet
    | Draining                                         // at the head of the inner loop
    | Serving(cmd: Command, length: nat, due: bool)    // id drawn; `due`: discovery record to make
    | Recording(cmd: Command, length: nat)             // code inserted in `seen`, record not written

  datatype Task = Task(
    phase: Phase, buf: bytes, received: bytes, dispatched: seq<Command>,
    answers: seq<Response>, written: seq<bytes>)

  const NEW_TASK: Task := Task(Reading, [], [], [], [], [])

  /** One draw of the request counter. */
  datatype Issue = Issue(task: TaskId, id: nat, cmd: Command)

  datatype State = State(
    permits: nat, holding: bool, tasks: map<TaskId, Task>, nextTask: TaskId,
    counter: nat, issued: seq<Issue>,
    seen: set<Pair>, log: seq<Pair>, lost: set<Pair>)

  const INITIAL: State :=
    State(MAX_CONCURRENT_CONNECTIONS, false, map[], 0, 1, [], {}, [], {})

  datatype Step =
    | Acquire
    | AcceptFails
    | Accept
    | Read(t: TaskId, chunk: bytes)
    | CheckCap(t: TaskId)
    | NoFrame(t: TaskId)
    | Start(t: TaskId)
    | Sight(t: TaskId)
    | WriteRecord(t: TaskId, ok: bool)
    | Answered(t: TaskId, response: Response)
    | Close(t: TaskId)

  predicate Enabled(cfg: Config, s: State, step: Step) {
    match step
    case Acquire => !s.holding && s.permits > 0
    case AcceptFails => s.holding
    case Accept => s.holding
    case Read(t, chunk) => t in s.tasks && s.tasks[t].phase.Reading? && 0 < |chunk| <= READ_BUFFER
    case CheckCap(t) => t in s.tasks && s.tasks[t].phase.Arrived?
    case NoFrame(t) => t in s.tasks && s.tasks[t].phase.Draining? && Parse(s.tasks[t].buf).None?
    case Start(t) => t in s.tasks && s.tasks[t].phase.Draining? && Parse(s.tasks[t].buf).Some?
    case Sight(t) => t in s.tasks && s.tasks[t].phase.Serving? && s.tasks[t].phase.due
    case WriteRecord(t, _) => t in s.tasks && s.tasks[t].phase.Recording?
    case Answered(t, response) =>
      t in s.tasks && s.tasks[t].phase.Serving? && !s.tasks[t].phase.due
      && s.tasks[t].phase.length <= |s.tasks[t].buf| && Allowed(cfg, s.tasks[t].phase.cmd, response)
    case Close(t) =>  // end of stream, read error or idle timeout; or the reply could not be written
      t in s.tasks && (s.tasks[t].phase.Reading? || (s.tasks[t].phase.Serving? && !s.tasks[t].phase.due))
  }

  function Release(s: State, t: TaskId): State {
    s.(tasks := s.tasks - {t}, permits := s.permits + 1)
  }

  /** One atomic action; a step that is not enabled changes nothing. */
  function Apply(cfg: Config, s: State, step: Step): State {
    if !Enabled(cfg, s, step) then s
    else
      match step
      case Acquire => s.(permits := s.permits - 1, holding := true)
      case AcceptFails => s.(permits := s.permits + 1, holding := false)
      case Accept =>
        s.(holding := false, nextTask := s.nextTask + 1,
           tasks := s.tasks[s.nextTask := NEW_TASK])
      case Read(t, chunk) =>
        var task := s.tasks[t];
        s.(tasks := s.tasks[t := task.(phase := Arrived, buf := task.buf + chunk,
                                        received := task.received + chunk)])
      case CheckCap(t) =>
        if |s.tasks[t].buf| > MAX_INBOUND_ACCUMULATION then Release(s, t)
        else s.(tasks := s.tasks[t := s.tasks[t].(phase := Draining)])
      case NoFrame(t) => s.(tasks := s.tasks[t := s.tasks[t].(phase := Reading)])
      case Start(t) =>
        var task := s.tasks[t];
        var Frame(cmd, n) := Parse(task.buf).value;
        s.(tasks := s.tasks[t := task.(phase := Serving(cmd, n, Due(cfg, cmd.code)),
                                        dispatched := task.dispatched + [cmd])],
           issued := s.issued + [Issue(t, s.counter, cmd)],
           counter := (s.counter + 1) % U64)
      case Sight(t) =>
        var Serving(cmd, n, _) := s.tasks[t].phase;
        if cmd.code in s.seen then s.(tasks := s.tasks[t := s.tasks[t].(phase := Serving(cmd, n, false))])
        else s.(seen := s.seen + {cmd.code},
                tasks := s.tasks[t := s.tasks[t].(phase := Recording(cmd, n))])
      case WriteRecord(t, ok) =>
        var Recording(cmd, n) := s.tasks[t].phase;
        s.(log := if ok then s.log + [cmd.code] else s.log,
           lost := if ok then s.lost else s.lost + {cmd.code},
           tasks := s.tasks[t := s.tasks[t].(phase := Serving(cmd, n, false))])
      case Answered(t, response) =>
        var task := s.tasks[t];
        s.(tasks := s.tasks[t := task.(phase := Draining, buf := task.buf[task.phase.length..],
                                       answers := task.answers + [response],
                                       written := task.written + [WireOf(task.phase.cmd, response)])])
      case Close(t) => Release(s, t)
  }

  /** The state after any interleaving. */
  function After(cfg: Config, steps: seq<Step>): State {
    if steps == [] then INITIAL
    else Apply(cfg, After(cfg, steps[..|steps| - 1]), steps[|steps| - 1])
  }

  // -------------------------------------------------------------- invariant

  ghost predicate PermitsBalance(s: State) {
    s.permits + (if s.holding then 1 else 0) + |s.tasks| == MAX_CONCURRENT_CONNECTIONS
  }

  ghost predicate IdsConsecutive(s: State) {
    && s.counter == (1 + |s.issued|) % U64
    && forall i | 0 <= i < |s.issued| :: s.issued[i].id == (1 + i) % U64
  }

  /** The bytes of a task not yet accounted for by its dispatched commands. */
  function Pending(task: Task): bytes {
    if (task.phase.Serving? || task.phase.Recording?) && task.phase.length <= |task.buf|
    then task.buf[task.phase.length..] else task.buf
  }

  /** A task has dispatched exactly the commands of its own stream, up to what is pending. */
  ghost predicate TaskOk(task: Task) {
    && Split(task.received) == task.dispatched + Split(Pending(task))
    && Residue(task.received) == Residue(Pending(task))
    && (task.phase.Reading? ==> Parse(task.buf).None?)
    && (task.phase.Serving? || task.phase.Recording? ==> task.phase.length <= |task.buf|)
    && |task.buf| <= MAX_INBOUND_ACCUMULATION + (if task.phase.Arrived? then READ_BUFFER else 0)
  }

  /** The commands a task drew ids for, in order. */
  function CommandsOf(issued: seq<Issue>, t: TaskId): seq<Command> {
    if issued == [] then []
    else
      var last := issued[|issued| - 1];
      CommandsOf(issued[..|issued| - 1], t) + (if last.task == t then [last.cmd] else [])
  }

  ghost predicate TasksOk(s: State) {
    && (forall t <- s.tasks :: t < s.nextTask && TaskOk(s.tasks[t]))
    && (forall t <- s.tasks :: s.tasks[t].dispatched == CommandsOf(s.issued, t))
    && (forall i | 0 <= i < |s.issued| :: s.issued[i].task < s.nextTask)
  }

  ghost predicate NoRepeats<T(!new)>(items: seq<T>) {
    forall i, j | 0 <= i < j < |items| :: items[i] != items[j]
  }

  ghost predicate InFlight(s: State, code: Pair) {
    exists t <- s.tasks :: s.tasks[t].phase.Recording? && s.tasks[t].phase.cmd.code == code
  }

  /** Every seen code is in exactly one place: the file, lost to a write error, or with the one
      task that is about to write it. */
  ghost predicate LogOk(s: State) {
    && NoRepeats(s.log)
    && (forall c: Pair :: c in s.seen <==> c in s.log || c in s.lost || InFlight(s, c))
    && (forall c: Pair :: c in s.log ==> c !in s.lost && !InFlight(s, c))
    && (forall c: Pair :: c in s.lost ==> !InFlight(s, c))
    && (forall t, u | t in s.tasks && u in s.tasks && t != u
          && s.tasks[t].phase.Recording? && s.tasks[u].phase.Recording? ::
          s.tasks[t].phase.cmd.code != s.tasks[u].phase.cmd.code)
  }

  /** A task has answered its commands in order, all but the one in hand, each as it may be. */
  ghost predicate AnswersOk(cfg: Config, task: Task) {
    && |task.written| == |task.answers|
    && |task.dispatched| == |task.answers| + (if task.phase.Serving? || task.phase.Recording? then 1 else 0)
    && (task.phase.Serving? || task.phase.Recording? ==> task.dispatched[|task.answers|] == task.phase.cmd)
    && forall i | 0 <= i < |task.answers| ::
         && Allowed(cfg, task.dispatched[i], task.answers[i])
         && task.written[i] == WireOf(task.dispatched[i], task.answers[i])
  }

  ghost predicate AllAnswersOk(cfg: Config, s: State) {
    forall t <- s.tasks :: AnswersOk(cfg, s.tasks[t])
  }

  /** An id was drawn for a command of this code. */
  ghost predicate Issued(s: State, code: Pair) {
    exists i | 0 <= i < |s.issued| :: s.issued[i].cmd.code == code
  }

  /** A task has still to look the code up in `seen`. */
  ghost predicate Awaited(s: State, code: Pair) {
    exists t: TaskId :: AwaitedBy(s, t) == Some(code)
  }

  function AwaitedBy(s: State, t: TaskId): Option<Pair> {
    if t in s.tasks && s.tasks[t].phase.Serving? && s.tasks[t].phase.due then Some(s.tasks[t].phase.cmd.code)
    else None
  }

  /** The seen codes and those still to be looked up are the unhandled codes of the commands dispatched. */
  ghost predicate SeenOk(cfg: Config, s: State) {
    forall c: Pair ::
      c in s.seen || Awaited(s, c) <==> Issued(s, c) && c !in cfg.registered && cfg.discovery && cfg.logging
  }

  ghost predicate Inv(cfg: Config, s: State) {
    PermitsBalance(s) && IdsConsecutive(s) && TasksOk(s) && LogOk(s) && AllAnswersOk(cfg, s) && SeenOk(cfg, s)
  }

  lemma PermitsKept(cfg: Config, s: State, step: Step)
    requires PermitsBalance(s) && TasksOk(s)
    ensures PermitsBalance(Apply(cfg, s, step))
  {
    hide Parse, TaskOk, CommandsOf;
    if Enabled(cfg, s, step) {
      if step.Close? || step.CheckCap? {
        assert (s.tasks - {step.t}).Keys == s.tasks.Keys - {step.t};
      }
    }
  }

  lemma IdsKept(cfg: Config, s: State, step: Step)
    requires IdsConsecutive(s)
    ensures IdsConsecutive(Apply(cfg, s, step))
  {
    hide Parse, Allowed, WireOf, Due;
  }

  lemma ArrivedOk(task: Task, chunk: bytes)
    requires TaskOk(task) && task.phase.Reading? && |chunk| <= READ_BUFFER
    ensures TaskOk(task.(phase := Arrived, buf := task.buf + chunk, received := task.received + chunk))
  {
    SplitStep(task.buf);
    SplitAppend(task.received, chunk);
  }

  lemma StartedOk(task: Task, due: bool)
    requires TaskOk(task) && task.phase.Draining? && Parse(task.buf).Some?
    ensures var f := Parse(task.buf).value;
            TaskOk(task.(phase := Serving(f.command, f.length, due),
                         dispatched := task.dispatched + [f.command]))
  {
    hide Parse, Split, Residue;
    SplitStep(task.buf);
    var f := Parse(task.buf).value;
    Reassociate(task.dispatched, [f.command], Split(task.buf[f.length..]));
  }

  lemma CommandsOfNone(issued: seq<Issue>, t: TaskId)
    requires forall i | 0 <= i < |issued| :: issued[i].task != t
    ensures CommandsOf(issued, t) == []
  {
    if issued != [] {
      CommandsOfNone(issued[..|issued| - 1], t);
    }
  }

  lemma CommandsOfSnoc(issued: seq<Issue>, last: Issue, t: TaskId)
    ensures CommandsOf(issued + [last], t)
         == CommandsOf(issued, t) + (if last.task == t then [last.cmd] else [])
  {
    assert (issued + [last])[..|issued|] == issued;
  }

  /** Only the task that steps changes, and it keeps its own invariant. */
  lemma TaskStepOk(cfg: Config, s: State, step: Step, t: TaskId)
    requires TasksOk(s) && Enabled(cfg, s, step) && t in Apply(cfg, s, step).tasks
    ensures TaskOk(Apply(cfg, s, step).tasks[t])
  {
    hide Parse, Split, Residue, TaskOk, CommandsOf;
    match step
    case Accept => FreshTaskOk();
    case Read(u, chunk) => if t == u { ArrivedOk(s.tasks[u], chunk); }
    case Start(u) =>
      if t == u {
        var code := Parse(s.tasks[u].buf).value.command.code;
        StartedOk(s.tasks[u], Due(cfg, code));
      }
    case CheckCap(u) => if t == u { PhaseOk(s.tasks[u]); }
    case NoFrame(u) => if t == u { PhaseOk(s.tasks[u]); }
    case Sight(u) => if t == u { PhaseOk(s.tasks[u]); }
    case WriteRecord(u, _) => if t == u { PhaseOk(s.tasks[u]); }
    case Answered(u, response) => if t == u { AnsweredOk(s.tasks[u], response); }
    case _ =>
  }

  lemma FreshTaskOk()
    ensures TaskOk(NEW_TASK)
  {
  }

  /** Moves of a task that leave its pending bytes and its commands alone. */
  lemma PhaseOk(task: Task)
    requires TaskOk(task)
    ensures task.phase.Arrived? && |task.buf| <= MAX_INBOUND_ACCUMULATION ==> TaskOk(task.(phase := Draining))
    ensures task.phase.Draining? && Parse(task.buf).None? ==> TaskOk(task.(phase := Reading))
    ensures task.phase.Serving? ==>
              && TaskOk(task.(phase := Serving(task.phase.cmd, task.phase.length, false)))
              && TaskOk(task.(phase := Recording(task.phase.cmd, task.phase.length)))
    ensures task.phase.Recording? ==>
              TaskOk(task.(phase := Serving(task.phase.cmd, task.phase.length, false)))
  {
    hide Parse, Split, Residue;
  }

  lemma AnsweredOk(task: Task, response: Response)
    requires TaskOk(task) && task.phase.Serving?
    ensures TaskOk(task.(phase := Draining, buf := task.buf[task.phase.length..],
                         answers := task.answers + [response],
                         written := task.written + [WireOf(task.phase.cmd, response)]))
  {
    hide Parse, Split, Residue, WireOf;
  }

  lemma TasksKept(cfg: Config, s: State, step: Step)
    requires TasksOk(s)
    ensures TasksOk(Apply(cfg, s, step))
  {
    hide Parse, TaskOk, CommandsOf;
    if Enabled(cfg, s, step) {
      var s' := Apply(cfg, s, step);
      forall t <- s'.tasks
        ensures TaskOk(s'.tasks[t]) && s'.tasks[t].dispatched == CommandsOf(s'.issued, t)
      {
        TaskStepOk(cfg, s, step, t);
        if step.Start? {
          CommandsOfSnoc(s.issued, s'.issued[|s.issued|], t);
        }
        if step.Accept? && t == s.nextTask {
          CommandsOfNone(s.issued, t);
        }
      }
    }
  }

  /** The command a task is recording, if it is. */
  function RecordingOf(s: State, t: TaskId): Option<Command> {
    if t in s.tasks && s.tasks[t].phase.Recording? then Some(s.tasks[t].phase.cmd) else None
  }

  /** Only a task's own sighting and record write start and end a recording. */
  lemma RecordingUntouched(cfg: Config, s: State, step: Step, t: TaskId)
    requires TasksOk(s) && Enabled(cfg, s, step) && !step.Sight? && !step.WriteRecord?
    ensures RecordingOf(Apply(cfg, s, step), t) == RecordingOf(s, t)
    ensures var s' := Apply(cfg, s, step); s'.seen == s.seen && s'.log == s.log && s'.lost == s.lost
  {
    hide Parse, TaskOk, CommandsOf;
  }

  lemma LogSame(s: State, s': State)
    requires LogOk(s) && s'.seen == s.seen && s'.log == s.log && s'.lost == s.lost
    requires forall t: TaskId :: RecordingOf(s', t) == RecordingOf(s, t)
    ensures LogOk(s')
  {
    forall c: Pair ensures InFlight(s, c) <==> InFlight(s', c) {
      if InFlight(s, c) {
        var t :| t in s.tasks && s.tasks[t].phase.Recording? && s.tasks[t].phase.cmd.code == c;
        assert RecordingOf(s', t) == RecordingOf(s, t);
      }
      if InFlight(s', c) {
        var t :| t in s'.tasks && s'.tasks[t].phase.Recording? && s'.tasks[t].phase.cmd.code == c;
        assert RecordingOf(s', t) == RecordingOf(s, t);
      }
    }
    forall t, u | t in s'.tasks && u in s'.tasks && t != u
      && s'.tasks[t].phase.Recording? && s'.tasks[u].phase.Recording?
      ensures s'.tasks[t].phase.cmd.code != s'.tasks[u].phase.cmd.code
    {
      assert RecordingOf(s', t) == RecordingOf(s, t) && RecordingOf(s', u) == RecordingOf(s, u);
    }
  }

  lemma LogKept(cfg: Config, s: State, step: Step)
    requires LogOk(s) && TasksOk(s)
    ensures LogOk(Apply(cfg, s, step))
  {
    assert !Enabled(cfg, s, step) ==> Apply(cfg, s, step) == s;
    hide Parse, TaskOk, CommandsOf, Apply, RecordingOf, InFlight, NoRepeats;
    if Enabled(cfg, s, step) {
      var s' := Apply(cfg, s, step);
      if step.Sight? {
        SightKept(cfg, s, step.t);
      } else if step.WriteRecord? {
        WriteKept(cfg, s, step.t, step.ok);
      } else {
        forall t: TaskId ensures RecordingOf(s', t) == RecordingOf(s, t) {
          RecordingUntouched(cfg, s, step, t);
        }
        RecordingUntouched(cfg, s, step, 0);
        LogSame(s, s');
      }
    }
  }

  lemma SightKept(cfg: Config, s: State, t: TaskId)
    requires LogOk(s) && Enabled(cfg, s, Sight(t))
    ensures LogOk(Apply(cfg, s, Sight(t)))
  {
    hide Parse;
    var s' := Apply(cfg, s, Sight(t));
    var code := s.tasks[t].phase.cmd.code;
    forall c: Pair ensures InFlight(s', c) <==> InFlight(s, c) || (c == code && code !in s.seen) {
      if InFlight(s, c) {
        var u :| u in s.tasks && s.tasks[u].phase.Recording? && s.tasks[u].phase.cmd.code == c;
        assert s'.tasks[u].phase.Recording? && s'.tasks[u].phase.cmd.code == c;
      }
      if c == code && code !in s.seen {
        assert s'.tasks[t].phase.Recording? && s'.tasks[t].phase.cmd.code == c;
      }
    }
    forall u <- s.tasks ensures s.tasks[u].phase.Recording? ==> InFlight(s, s.tasks[u].phase.cmd.code) {
    }
  }

  lemma WriteKept(cfg: Config, s: State, t: TaskId, ok: bool)
    requires LogOk(s) && Enabled(cfg, s, WriteRecord(t, ok))
    ensures LogOk(Apply(cfg, s, WriteRecord(t, ok)))
  {
    hide Parse;
    var s' := Apply(cfg, s, WriteRecord(t, ok));
    var code := s.tasks[t].phase.cmd.code;
    assert InFlight(s, code);
    forall c: Pair ensures InFlight(s', c) <==> InFlight(s, c) && c != code {
      if InFlight(s, c) && c != code {
        var u :| u in s.tasks && s.tasks[u].phase.Recording? && s.tasks[u].phase.cmd.code == c;
        assert s'.tasks[u].phase.Recording? && s'.tasks[u].phase.cmd.code == c;
      }
    }
  }

  lemma AnswerStepOk(cfg: Config, s: State, step: Step, t: TaskId)
    requires AllAnswersOk(cfg, s) && Enabled(cfg, s, step) && t in Apply(cfg, s, step).tasks
    ensures AnswersOk(cfg, Apply(cfg, s, step).tasks[t])
  {
    hide Parse, Allowed, WireOf, Due;
  }

  lemma AnswersKept(cfg: Config, s: State, step: Step)
    requires AllAnswersOk(cfg, s)
    ensures AllAnswersOk(cfg, Apply(cfg, s, step))
  {
    assert !Enabled(cfg, s, step) ==> Apply(cfg, s, step) == s;
    hide Apply, Enabled, AnswersOk;
    if Enabled(cfg, s, step) {
      forall t <- Apply(cfg, s, step).tasks {
        AnswerStepOk(cfg, s, step, t);
      }
    }
  }

  /** Only a started or a sighted command changes what is awaited, issued or seen. */
  lemma AwaitUntouched(cfg: Config, s: State, step: Step, t: TaskId)
    requires Enabled(cfg, s, step) && TasksOk(s)
    requires step.Start? || step.Sight? ==> t != step.t
    ensures AwaitedBy(Apply(cfg, s, step), t) == AwaitedBy(s, t)
  {
    hide Parse, Allowed, WireOf, Due, TaskOk, CommandsOf;
  }

  lemma SeenUntouched(cfg: Config, s: State, step: Step)
    requires Enabled(cfg, s, step)
    ensures !step.Start? ==> Apply(cfg, s, step).issued == s.issued
    ensures !step.Sight? ==> Apply(cfg, s, step).seen == s.seen
  {
    hide Parse, Allowed, WireOf, Due;
  }

  lemma StartSeen(cfg: Config, s: State, t: TaskId)
    requires Enabled(cfg, s, Start(t))
    ensures var s' := Apply(cfg, s, Start(t));
            var cmd := Parse(s.tasks[t].buf).value.command;
            && s'.issued == s.issued + [Issue(t, s.counter, cmd)] && AwaitedBy(s, t).None?
            && AwaitedBy(s', t) == if Due(cfg, cmd.code) then Some(cmd.code) else None
  {
    hide Parse, Due;
  }

  lemma SightSeen(cfg: Config, s: State, t: TaskId)
    requires Enabled(cfg, s, Sight(t))
    ensures var s' := Apply(cfg, s, Sight(t));
            && AwaitedBy(s', t).None? && AwaitedBy(s, t).Some?
            && s'.seen == s.seen + {AwaitedBy(s, t).value}
  {
    hide Parse;
  }

  /** Some task other than this one awaits the code. */
  ghost predicate AwaitedElse(s: State, t: TaskId, code: Pair) {
    exists u: TaskId | u != t :: AwaitedBy(s, u) == Some(code)
  }

  lemma AwaitedMoves(s: State, s': State, t: TaskId, code: Pair)
    requires forall u: TaskId | u != t :: AwaitedBy(s', u) == AwaitedBy(s, u)
    ensures Awaited(s, code) <==> AwaitedElse(s, t, code) || AwaitedBy(s, t) == Some(code)
    ensures Awaited(s', code) <==> AwaitedElse(s, t, code) || AwaitedBy(s', t) == Some(code)
  {
    hide AwaitedBy;
    if Awaited(s', code) {
      var u: TaskId :| AwaitedBy(s', u) == Some(code);
      assert u != t ==> AwaitedBy(s, u) == Some(code);
    }
    if AwaitedElse(s, t, code) {
      var u: TaskId :| u != t && AwaitedBy(s, u) == Some(code);
      assert AwaitedBy(s', u) == Some(code);
    }
  }

  lemma IssuedMore(s: State, s': State, last: Issue, code: Pair)
    requires s'.issued == s.issued + [last]
    ensures Issued(s', code) <==> Issued(s, code) || code == last.cmd.code
  {
    assert s'.issued[|s.issued|] == last;
    if Issued(s, code) {
      var i :| 0 <= i < |s.issued| && s.issued[i].cmd.code == code;
      assert s'.issued[i].cmd.code == code;
    }
  }

  lemma SeenStepKept(cfg: Config, s: State, step: Step)
    requires SeenOk(cfg, s) && TasksOk(s) && Enabled(cfg, s, step)
    ensures SeenOk(cfg, Apply(cfg, s, step))
  {
    hide Enabled, TasksOk, Apply, AwaitedBy, Awaited, AwaitedElse, Issued;
    var s' := Apply(cfg, s, step);
    var t := if step.Start? || step.Sight? then step.t else 0;
    SeenUntouched(cfg, s, step);
    forall u: TaskId | u != t ensures AwaitedBy(s', u) == AwaitedBy(s, u) {
      AwaitUntouched(cfg, s, step, u);
    }
    if step.Start? {
      StartSeen(cfg, s, t);
    } else if step.Sight? {
      SightSeen(cfg, s, t);
    } else {
      AwaitUntouched(cfg, s, step, t);
    }
    forall c: Pair
      ensures c in s'.seen || Awaited(s', c)
              <==> Issued(s', c) && c !in cfg.registered && cfg.discovery && cfg.logging
    {
      AwaitedMoves(s, s', t, c);
      if step.Start? {
        IssuedMore(s, s', s'.issued[|s.issued|], c);
      } else {
        IssuedSame(s, s', c);
      }
    }
  }

  lemma IssuedSame(s: State, s': State, code: Pair)
    requires s'.issued == s.issued
    ensures Issued(s', code) <==> Issued(s, code)
  {
  }

  lemma SeenKept(cfg: Config, s: State, step: Step)
    requires SeenOk(cfg, s) && TasksOk(s)
    ensures SeenOk(cfg, Apply(cfg, s, step))
  {
    assert !Enabled(cfg, s, step) ==> Apply(cfg, s, step) == s;
    hide *;
    if Enabled(cfg, s, step) {
      SeenStepKept(cfg, s, step);
    }
  }

  // ------------------------------------------------------------ main theorems

  /** Every interleaving keeps the invariant. */
  lemma {:induction false} EveryRun(cfg: Config, steps: seq<Step>)
    ensures Inv(cfg, After(cfg, steps))
  {
    hide Parse, TaskOk, CommandsOf, Apply;
    if steps == [] {
      assert |INITIAL.tasks| == 0;
    } else {
      var before := After(cfg, steps[..|steps| - 1]);
      var step := steps[|steps| - 1];
      EveryRun(cfg, steps[..|steps| - 1]);
      PermitsKept(cfg, before, step);
      IdsKept(cfg, before, step);
      TasksKept(cfg, before, step);
      LogKept(cfg, before, step);
      AnswersKept(cfg, before, step);
      SeenKept(cfg, before, step);
    }
  }

  /** Request ids never repeat, across all connections, exactly as long as fewer than 2^64 + 1
      were drawn; and before the counter wraps they grow, so they grow within a connection. */
  lemma IdsDistinct(cfg: Config, steps: seq<Step>)
    ensures var issued := After(cfg, steps).issued;
            && ((forall i, j | 0 <= i < j < |issued| :: issued[i].id != issued[j].id)
                <==> |issued| <= 0x1_0000_0000_0000_0000)
            && (|issued| < 0x1_0000_0000_0000_0000
                ==> forall i, j | 0 <= i < j < |issued| :: issued[i].id < issued[j].id)
  {
    hide Apply, After, TasksOk, LogOk;
    EveryRun(cfg, steps);
    var issued := After(cfg, steps).issued;
    if |issued| > U64 {
      assert issued[0].id == 1 % U64 && issued[U64].id == (1 + U64) % U64;
    } else {
      forall i, j | 0 <= i < j < |issued| ensures issued[i].id != issued[j].id {
        assert issued[i].id == (1 + i) % U64 && issued[j].id == (1 + j) % U64;
      }
    }
  }

  /** Connections do not disturb each other: in any interleaving, a task waiting for bytes has
      dispatched exactly the commands of its own stream, each under an id of its own. */
  lemma TaskIsolated(cfg: Config, steps: seq<Step>, t: TaskId)
    requires t in After(cfg, steps).tasks && After(cfg, steps).tasks[t].phase.Reading?
    ensures var s := After(cfg, steps);
            && s.tasks[t].dispatched == Split(s.tasks[t].received)
            && s.tasks[t].buf == Residue(s.tasks[t].received)
            && s.tasks[t].dispatched == CommandsOf(s.issued, t)
  {
    hide Parse, Apply, After, LogOk, CommandsOf;
    EveryRun(cfg, steps);
    SplitStep(After(cfg, steps).tasks[t].buf);
  }

  /** With discovery and logging on, the seen codes are those of the unhandled commands dispatched, all
      but what a task has still to look up; with either off there are none. Each has at most one
      record, and once no task is at it and no write failed the file holds exactly those codes. */
  lemma DiscoveryOnce(cfg: Config, steps: seq<Step>)
    ensures var s := After(cfg, steps);
            && (forall c: Pair ::
                  c in s.seen || Awaited(s, c)
                  <==> Issued(s, c) && c !in cfg.registered && cfg.discovery && cfg.logging)
            && NoRepeats(s.log)
            && (forall c: Pair :: c in s.log ==> c in s.seen)
            && (s.lost == {} && (forall t <- s.tasks :: !s.tasks[t].phase.Recording?)
                ==> forall c: Pair :: c in s.log <==> c in s.seen)
            && (s.lost == {} && (forall t <- s.tasks :: s.tasks[t].phase.Reading?)
                ==> forall c: Pair ::
                      c in s.log <==> Issued(s, c) && c !in cfg.registered && cfg.discovery && cfg.logging)
  {
    hide Apply, After, TasksOk, Issued, NoRepeats;
    EveryRun(cfg, steps);
  }

  lemma TaskAnswersOk(cfg: Config, steps: seq<Step>, t: TaskId)
    requires t in After(cfg, steps).tasks
    ensures AnswersOk(cfg, After(cfg, steps).tasks[t])
  {
    EveryRun(cfg, steps);
    hide Apply, After, TasksOk, LogOk, SeenOk, Allowed, WireOf;
  }

  /** In any interleaving a client that looks after every answer finds exactly one reply more each time
      if and only if each answer reads as one; the answers are those its own commands may get, in the
      order of its own stream, with at most the last command unanswered. */
  lemma ClientsInStep(cfg: Config, steps: seq<Step>, t: TaskId)
    requires t in After(cfg, steps).tasks
    ensures var task := After(cfg, steps).tasks[t];
            var n := |task.answers|;
            && |task.written| == n <= |task.dispatched| <= n + 1 && task.dispatched <= Split(task.received)
            && (task.phase.Reading? ==> n == |Split(task.received)|)
            && (forall i | 0 <= i < n ::
                  var cmd, answer := task.dispatched[i], task.answers[i];
                  if cmd.code in cfg.registered then answer.Local? && cfg.permits(cmd, answer.reply)
                  else if cfg.discovery then answer.Passed? || answer == Local(Reply(Code('4', '1'), []))
                  else answer == Local(Reply(Code('6', '8'), [])))
            && (Aligned(task.written) <==> forall i | 0 <= i < n :: ReadsAsOne(task.answers[i]))
            && (Aligned(task.written) ==>
                  && |Split(Flatten(task.written))| == n && Residue(Flatten(task.written)) == []
                  && forall i | 0 <= i < n ::
                       && ReadsAsOne(task.answers[i])
                       && ReadsBack(task.dispatched[i], task.answers[i], Split(Flatten(task.written))[i]))
  {
    hide Parse, Apply, After, LogOk, CommandsOf, SeenOk, Split, Residue, Flatten, Aligned, ReadsAsOne, ReadsBack,
         WireOf;
    EveryRun(cfg, steps);
    var task := After(cfg, steps).tasks[t];
    SplitStep(task.buf);
    AnswersRead(task.dispatched, task.answers, task.written);
  }

  // ------------------------------------------- nothing stands in a task's way

  lemma AfterMore(cfg: Config, steps: seq<Step>, step: Step)
    ensures After(cfg, steps + [step]) == Apply(cfg, After(cfg, steps), step)
  {
    assert (steps + [step])[..|steps|] == steps;
  }

  /** The steps that serve the next command of a task with this answer. */
  function Serving1(cfg: Config, s: State, t: TaskId, code: Pair, response: Response): seq<Step> {
    if !Due(cfg, code) then [Start(t), Answered(t, response)]
    else if code in s.seen then [Start(t), Sight(t), Answered(t, response)]
    else [Start(t), Sight(t), WriteRecord(t, true), Answered(t, response)]
  }

  function Played(cfg: Config, s: State, steps: seq<Step>): State
    decreases |steps|
  {
    if steps == [] then s else Played(cfg, Apply(cfg, s, steps[0]), steps[1..])
  }

  lemma {:induction false} PlayedAfter(cfg: Config, steps: seq<Step>, more: seq<Step>)
    ensures After(cfg, steps + more) == Played(cfg, After(cfg, steps), more)
    decreases |more|
  {
    hide Apply;
    if more == [] {
      assert steps + more == steps;
    } else {
      AfterMore(cfg, steps, more[0]);
      PlayedAfter(cfg, steps + [more[0]], more[1..]);
      assert steps + more == (steps + [more[0]]) + more[1..];
    }
  }

  lemma StartStep(cfg: Config, s: State, t: TaskId)
    requires t in s.tasks && s.tasks[t].phase.Draining? && Parse(s.tasks[t].buf).Some?
    ensures var s', task, f := Apply(cfg, s, Start(t)), s.tasks[t], Parse(s.tasks[t].buf).value;
            && t in s'.tasks && s'.seen == s.seen
            && s'.tasks[t] == task.(phase := Serving(f.command, f.length, Due(cfg, f.command.code)),
                                    dispatched := task.dispatched + [f.command])
  {
    hide Parse, Due;
  }

  lemma SightStep(cfg: Config, s: State, t: TaskId)
    requires t in s.tasks && s.tasks[t].phase.Serving? && s.tasks[t].phase.due
    ensures var s', task := Apply(cfg, s, Sight(t)), s.tasks[t];
            var Serving(cmd, n, _) := task.phase;
            && t in s'.tasks
            && s'.tasks[t] == task.(phase := if cmd.code in s.seen then Serving(cmd, n, false) else Recording(cmd, n))
  {
    hide Parse;
  }

  lemma RecordStep(cfg: Config, s: State, t: TaskId)
    requires t in s.tasks && s.tasks[t].phase.Recording?
    ensures var s', task := Apply(cfg, s, WriteRecord(t, true)), s.tasks[t];
            && t in s'.tasks
            && s'.tasks[t] == task.(phase := Serving(task.phase.cmd, task.phase.length, false))
  {
    hide Parse;
  }

  lemma AnswerStep(cfg: Config, s: State, t: TaskId, response: Response)
    requires t in s.tasks && s.tasks[t].phase.Serving? && !s.tasks[t].phase.due
    requires s.tasks[t].phase.length <= |s.tasks[t].buf| && Allowed(cfg, s.tasks[t].phase.cmd, response)
    ensures var s', task := Apply(cfg, s, Answered(t, response)), s.tasks[t];
            && t in s'.tasks
            && s'.tasks[t] == task.(phase := Draining, buf := task.buf[task.phase.length..],
                                    answers := task.answers + [response],
                                    written := task.written + [WireOf(task.phase.cmd, response)])
  {
    hide Parse, Allowed, WireOf;
  }

  /** Whatever the other tasks are doing, a task that has a command can see it through to any answer
      that command may get. */
  lemma CommandServed(cfg: Config, s: State, t: TaskId, response: Response)
    requires t in s.tasks && s.tasks[t].phase.Draining? && Parse(s.tasks[t].buf).Some?
    requires Allowed(cfg, Parse(s.tasks[t].buf).value.command, response)
    ensures var task, f := s.tasks[t], Parse(s.tasks[t].buf).value;
            var s' := Played(cfg, s, Serving1(cfg, s, t, f.command.code, response));
            && t in s'.tasks
            && s'.tasks[t] == Task(Draining, task.buf[f.length..], task.received, task.dispatched + [f.command],
                                   task.answers + [response], task.written + [WireOf(f.command, response)])
  {
    var f := Parse(s.tasks[t].buf).value;
    var s1 := Apply(cfg, s, Start(t));
    assert f.length <= |s.tasks[t].buf|;
    StartStep(cfg, s, t);
    hide Parse, Allowed, WireOf, Apply, Due;
    var s3 := s1;
    if Due(cfg, f.command.code) {
      SightStep(cfg, s1, t);
      var s2 := Apply(cfg, s1, Sight(t));
      s3 := s2;
      if f.command.code !in s.seen {
        RecordStep(cfg, s2, t);
        s3 := Apply(cfg, s2, WriteRecord(t, true));
      }
    }
    AnswerStep(cfg, s3, t, response);
    PlayedSteps(cfg, s, t, response);
  }

  lemma PlayedSteps(cfg: Config, s: State, t: TaskId, response: Response)
    ensures Played(cfg, s, [Start(t), Answered(t, response)])
         == Apply(cfg, Apply(cfg, s, Start(t)), Answered(t, response))
    ensures Played(cfg, s, [Start(t), Sight(t), Answered(t, response)])
         == Apply(cfg, Apply(cfg, Apply(cfg, s, Start(t)), Sight(t)), Answered(t, response))
    ensures Played(cfg, s, [Start(t), Sight(t), WriteRecord(t, true), Answered(t, response)])
         == Apply(cfg, Apply(cfg, Apply(cfg, Apply(cfg, s, Start(t)), Sight(t)), WriteRecord(t, true)),
                  Answered(t, response))
  {
    hide Apply;
    var last := [Answered(t, response)];
    var s1 := Apply(cfg, s, Start(t));
    var s2 := Apply(cfg, s1, Sight(t));
    PlayedOne(cfg, s, Start(t), last);
    PlayedOne(cfg, s1, Answered(t, response), []);
    PlayedOne(cfg, s, Start(t), [Sight(t)] + last);
    PlayedOne(cfg, s1, Sight(t), last);
    PlayedOne(cfg, s2, Answered(t, response), []);
    PlayedOne(cfg, s, Start(t), [Sight(t)] + ([WriteRecord(t, true)] + last));
    PlayedOne(cfg, s1, Sight(t), [WriteRecord(t, true)] + last);
    PlayedOne(cfg, s2, WriteRecord(t, true), last);
    PlayedOne(cfg, Apply(cfg, s2, WriteRecord(t, true)), Answered(t, response), []);
    assert [Start(t), Sight(t), WriteRecord(t, true), Answered(t, response)]
        == [Start(t)] + ([Sight(t)] + ([WriteRecord(t, true)] + last));
    assert [Start(t), Sight(t), Answered(t, response)] == [Start(t)] + ([Sight(t)] + last);
    assert [Start(t), Answered(t, response)] == [Start(t)] + last;
    assert last == last + [];
  }

  lemma PlayedOne(cfg: Config, s: State, step: Step, rest: seq<Step>)
    ensures Played(cfg, s, [step] + rest) == Played(cfg, Apply(cfg, s, step), rest)
    ensures Played(cfg, s, []) == s
  {
    hide Apply;
    assert ([step] + rest)[1..] == rest;
  }

  /** Any task can go on until it has answered all it received and waits for more, each command with
      whichever of its possible answers. */
  lemma {:induction false} AllServed(cfg: Config, s: State, t: TaskId, answer: Command -> Response)
    returns (more: seq<Step>)
    requires t in s.tasks && s.tasks[t].phase.Draining? && forall cmd :: Allowed(cfg, cmd, answer(cmd))
    ensures var s' := Played(cfg, s, more);
            && t in s'.tasks && s'.tasks[t].phase.Reading? && s'.tasks[t].received == s.tasks[t].received
            && s'.tasks[t].dispatched == s.tasks[t].dispatched + Split(s.tasks[t].buf)
    decreases |s.tasks[t].buf|
  {
    var buf := s.tasks[t].buf;
    SplitStep(buf);
    PlayedOne(cfg, s, NoFrame(t), []);
    if Parse(buf).None? {
      more := [NoFrame(t)] + [];
      assert s.tasks[t].dispatched + [] == s.tasks[t].dispatched;
      PlayedOne(cfg, Apply(cfg, s, NoFrame(t)), NoFrame(t), []);
      hide Parse, Split, Allowed;
    } else {
      var f := Parse(buf).value;
      assert 6 <= f.length <= |buf|;
      hide Parse, Split, Residue, Allowed, Apply, WireOf;
      CommandServed(cfg, s, t, answer(f.command));
      var now := Serving1(cfg, s, t, f.command.code, answer(f.command));
      var next := Played(cfg, s, now);
      var rest := AllServed(cfg, next, t, answer);
      more := now + rest;
      PlayedOn(cfg, s, now, rest);
      Reassociate(s.tasks[t].dispatched, [f.command], Split(buf[f.length..]));
    }
  }

  lemma {:induction false} PlayedOn(cfg: Config, s: State, a: seq<Step>, b: seq<Step>)
    ensures Played(cfg, s, a + b) == Played(cfg, Played(cfg, s, a), b)
    decreases |a|
  {
    hide Apply;
    if a == [] {
      assert a + b == b;
    } else {
      assert (a + b)[1..] == a[1..] + b;
      PlayedOn(cfg, Apply(cfg, s, a[0]), a[1..], b);
    }
  }

  /** So in every interleaving a waiting task can still take a read of up to 4096 bytes and answer all
      that is then complete, unless the read passes the accumulation cap, which closes it. */
  lemma NeverStuck(cfg: Config, steps: seq<Step>, t: TaskId, chunk: bytes, answer: Command -> Response)
    returns (more: seq<Step>)
    requires t in After(cfg, steps).tasks && After(cfg, steps).tasks[t].phase.Reading?
    requires 0 < |chunk| <= 4096 && forall cmd :: Allowed(cfg, cmd, answer(cmd))
    ensures var task, s' := After(cfg, steps).tasks[t], After(cfg, steps + more);
            if |task.buf + chunk| > 262144 then t !in s'.tasks
            else t in s'.tasks && s'.tasks[t].phase.Reading? && s'.tasks[t].received == task.received + chunk
  {
    hide Parse, Split, Residue, Allowed, CommandsOf, After;
    var s := After(cfg, steps);
    var s1 := Apply(cfg, s, Read(t, chunk));
    var s2 := Apply(cfg, s1, CheckCap(t));
    AfterMore(cfg, steps, Read(t, chunk));
    AfterMore(cfg, steps + [Read(t, chunk)], CheckCap(t));
    more := [Read(t, chunk)] + [CheckCap(t)];
    assert (steps + [Read(t, chunk)]) + [CheckCap(t)] == steps + more;
    if |s.tasks[t].buf + chunk| <= 262144 {
      var rest := AllServed(cfg, s2, t, answer);
      PlayedAfter(cfg, steps + more, rest);
      assert (steps + more) + rest == steps + (more + rest);
      more := more + rest;
    }
  }

  /** And an idle acceptor takes a new connection whenever a permit is left. */
  lemma AcceptsAgain(cfg: Config, steps: seq<Step>)
    requires !After(cfg, steps).holding && |After(cfg, steps).tasks| < 1024
    ensures var s, s' := After(cfg, steps), After(cfg, (steps + [Acquire]) + [Accept]);
            |s'.tasks| == |s.tasks| + 1 && s'.permits == s.permits - 1 && s.nextTask in s'.tasks
            && s'.tasks[s.nextTask].phase.Reading? && s'.tasks[s.nextTask].received == []
  {
    hide Parse, After, TaskOk, CommandsOf, LogOk, SeenOk, AllAnswersOk, IdsConsecutive;
    EveryRun(cfg, steps);
    AfterMore(cfg, steps, Acquire);
    AfterMore(cfg, steps + [Acquire], Accept);
    var s := After(cfg, steps);
    assert s.nextTask !in s.tasks;
    assert s.tasks[s.nextTask := NEW_TASK].Keys == s.tasks.Keys + {s.nextTask};
  }

  ghost function Pick(tasks: map<TaskId, Task>): TaskId
    requires |tasks| > 0
    ensures Pick(tasks) in tasks
  {
    var t :| t in tasks.Keys;
    t
  }

  /** Bytes buffered by all live connections. */
  ghost function Buffered(tasks: map<TaskId, Task>): nat
    decreases |tasks|
  {
    if |tasks| == 0 then 0
    else
      var t := Pick(tasks);
      assert (tasks - {t}).Keys == tasks.Keys - {t};
      |tasks[t].buf| + Buffered(tasks - {t})
  }

  lemma OneMore(n: nat, bound: nat)
    ensures n * bound + bound == (n + 1) * bound
  {
  }

  lemma {:induction false} BufferedAtMost(tasks: map<TaskId, Task>, bound: nat)
    requires forall t | t in tasks :: |tasks[t].buf| <= bound
    ensures Buffered(tasks) <= |tasks| * bound
    decreases |tasks|
  {
    if |tasks| > 0 {
      var t := Pick(tasks);
      var others := tasks - {t};
      assert others.Keys == tasks.Keys - {t};
      BufferedAtMost(others, bound);
      OneMore(|others|, bound);
    }
  }

  /** The two limits together bound the memory of the whole process. */
  lemma MemoryBounded(cfg: Config, steps: seq<Step>)
    ensures var s := After(cfg, steps);
            && s.permits + (if s.holding then 1 else 0) + |s.tasks| == 1024
            && Buffered(s.tasks) <= 1024 * (262144 + 4096)
  {
    hide Parse, Apply, After, LogOk, CommandsOf, Split, Residue;
    EveryRun(cfg, steps);
    BufferedAtMost(After(cfg, steps).tasks, MAX_INBOUND_ACCUMULATION + READ_BUFFER);
  }
}
