/**
 * The record store under concurrency.  Writers hold the mutex, load the current maps, and store the new data
 * and the new stamps one after the other; readers and exporters load without the lock.  Any number of threads
 * may take their next step at any moment.
 */
module Linearizability {
  import opened Names
  import opened RecordStore

  type Data = map<string, string>
  type Meta = map<string, Stamp>

  datatype Op = Put(host: string, ip: string) | Drop(host: string) | Deliver(m: Message)

  /** The sequential meaning of a write, and what it returns. */
  function Do(s: Store, op: Op): Store {
    match op
    case Put(host, ip) => PlainAdd(s, host, ip)
    case Drop(host) => PlainRemove(s, host)
    case Deliver(m) => Apply(s, m)
  }

  predicate Succeeds(s: Store, op: Op) {
    op.Deliver? ==> Accepts(s, op.m)
  }

  function Replay(log: seq<Op>): Store {
    if log == [] then EMPTY else Do(Replay(log[..|log| - 1]), log[|log| - 1])
  }

  /** What a writer can do with the maps it has loaded so far. */
  datatype Decision = Undecided | Skip(ok: bool) | Write(data: Data, meta: Option<Meta>)

  function Decide(op: Op, d: Option<Data>, m: Option<Meta>): Decision {
    match op
    case Put(host, ip) =>
      if d.None? then Undecided else Write(d.value[Lower(host) := ip], None)
    case Drop(host) =>
      if d.None? then Undecided
      else if Lower(host) !in d.value then Skip(true)
      else Write(d.value - {Lower(host)}, None)
    case Deliver(Message(host, ip, action, stamp)) =>
      var k := Lower(host);
      match action
      case Add =>
        if m.None? then Undecided
        else if Blocked(m.value, k, stamp) then Skip(false)
        else if d.None? then Undecided
        else Write(d.value[k := ip], Some(m.value[k := stamp]))
      case Remove =>
        if d.None? then Undecided
        else if k !in d.value then Skip(false)
        else if m.None? then Undecided
        else if Blocked(m.value, k, stamp) then Skip(false)
        else Write(d.value - {k}, Some(m.value - {k}))
      case Other(_) => Skip(false)
  }

  datatype Phase = Loading(d: Option<Data>, m: Option<Meta>) | Published(meta: Meta) | Finished(ok: bool)

  datatype Holder = Holder(thread: nat, op: Op, phase: Phase)

  datatype Pc =
    | Waiting(op: Op)
    | Reading(host: string, since: nat)
    | Read(host: string, since: nat, at: nat, data: Data)
    | Exporting(since: nat)
    | Exported(since: nat, at: nat, data: Data)

  /** `since` and `until` count the writes visible at the call and at the return, `at` those it saw. */
  datatype Result =
    | LookupResult(host: string, since: nat, at: nat, until: nat, answer: Option<string>)
    | ExportResult(since: nat, at: nat, metaAt: nat, until: nat, state: map<string, Entry>)
    | WriteResult(index: nat, op: Op, ok: bool)

  /** `log` lists the writes in the order in which they took the mutex. */
  datatype Machine = Machine(data: Data, meta: Meta, holder: Option<Holder>, pcs: map<nat, Pc>,
                             log: seq<Op>, results: seq<Result>)

  const INIT := Machine(map[], map[], None, map[], [], [])

  datatype Step =
    | CallWrite(t: nat, op: Op) | Lock(t: nat) | LoadData | LoadMeta | PublishData | PublishMeta | GiveUp | Unlock
    | CallLookup(t: nat, host: string) | LookupLoad(t: nat) | LookupReturn(t: nat)
    | CallExport(t: nat) | ExportLoad(t: nat) | ExportReturn(t: nat)

  /** A message with an unknown action is refused before the mutex is taken. */
  predicate TakesMutex(op: Op) { op.Deliver? ==> !op.m.action.Other? }

  predicate IsLoading(s: Machine) { s.holder.Some? && s.holder.value.phase.Loading? }

  function Pending(s: Machine): Decision
    requires IsLoading(s)
  {
    Decide(s.holder.value.op, s.holder.value.phase.d, s.holder.value.phase.m)
  }

  predicate Enabled(s: Machine, step: Step) {
    match step
    case CallWrite(t, op) => TakesMutex(op) && t !in s.pcs && (s.holder.Some? ==> s.holder.value.thread != t)
    case Lock(t) => s.holder.None? && t in s.pcs && s.pcs[t].Waiting?
    case LoadData => IsLoading(s) && s.holder.value.phase.d.None?
    case LoadMeta => IsLoading(s) && s.holder.value.phase.m.None?
    case PublishData => IsLoading(s) && Pending(s).Write?
    case PublishMeta => s.holder.Some? && s.holder.value.phase.Published?
    case GiveUp => IsLoading(s) && Pending(s).Skip?
    case Unlock => s.holder.Some? && s.holder.value.phase.Finished?
    case CallLookup(t, host) => t !in s.pcs && (s.holder.Some? ==> s.holder.value.thread != t)
    case LookupLoad(t) => t in s.pcs && s.pcs[t].Reading?
    case LookupReturn(t) => t in s.pcs && s.pcs[t].Read?
    case CallExport(t) => t !in s.pcs && (s.holder.Some? ==> s.holder.value.thread != t)
    case ExportLoad(t) => t in s.pcs && s.pcs[t].Exporting?
    case ExportReturn(t) => t in s.pcs && s.pcs[t].Exported?
  }

  /** Writes whose effect a load of the data, or of the stamps, would show. */
  function DataVisible(s: Machine): nat {
    if IsLoading(s) && s.log != [] then |s.log| - 1 else |s.log|
  }

  function MetaVisible(s: Machine): nat {
    if s.holder.Some? && !s.holder.value.phase.Finished? && s.log != [] then |s.log| - 1 else |s.log|
  }

  function WithPhase(s: Machine, phase: Phase): Machine
    requires s.holder.Some?
  {
    s.(holder := Some(s.holder.value.(phase := phase)))
  }

  function Fire(s: Machine, step: Step): Machine
    requires Enabled(s, step)
  {
    match step
    case CallWrite(t, op) => s.(pcs := s.pcs[t := Waiting(op)])
    case Lock(t) =>
      s.(holder := Some(Holder(t, s.pcs[t].op, Loading(None, None))), pcs := s.pcs - {t}, log := s.log + [s.pcs[t].op])
    case LoadData => WithPhase(s, s.holder.value.phase.(d := Some(s.data)))
    case LoadMeta => WithPhase(s, s.holder.value.phase.(m := Some(s.meta)))
    case PublishData =>
      var w := Pending(s);
      WithPhase(s, if w.meta.Some? then Published(w.meta.value) else Finished(true)).(data := w.data)
    case PublishMeta => WithPhase(s, Finished(true)).(meta := s.holder.value.phase.meta)
    case GiveUp => WithPhase(s, Finished(Pending(s).ok))
    case Unlock =>
      var i := if s.log == [] then 0 else |s.log| - 1;
      s.(holder := None, results := s.results + [WriteResult(i, s.holder.value.op, s.holder.value.phase.ok)])
    case CallLookup(t, host) => s.(pcs := s.pcs[t := Reading(host, DataVisible(s))])
    case LookupLoad(t) => s.(pcs := s.pcs[t := Read(s.pcs[t].host, s.pcs[t].since, DataVisible(s), s.data)])
    case LookupReturn(t) =>
      var Read(host, since, at, data) := s.pcs[t];
      var answer := if Lower(host) in data then Some(data[Lower(host)]) else None;
      s.(pcs := s.pcs - {t}, results := s.results + [LookupResult(host, since, at, DataVisible(s), answer)])
    case CallExport(t) => s.(pcs := s.pcs[t := Exporting(DataVisible(s))])
    case ExportLoad(t) => s.(pcs := s.pcs[t := Exported(s.pcs[t].since, DataVisible(s), s.data)])
    case ExportReturn(t) =>
      var Exported(since, at, data) := s.pcs[t];
      s.(pcs := s.pcs - {t},
         results := s.results + [ExportResult(since, at, MetaVisible(s), |s.log|, Combine(data, s.meta))])
  }

  /** The state after a schedule; None when the schedule asks for a step that is not enabled. */
  function ExecFrom(s: Machine, steps: seq<Step>): Option<Machine> {
    if steps == [] then Some(s)
    else
      var before := ExecFrom(s, steps[..|steps| - 1]);
      if before.Some? && Enabled(before.value, steps[|steps| - 1])
      then Some(Fire(before.value, steps[|steps| - 1])) else None
  }

  function Exec(steps: seq<Step>): Option<Machine> { ExecFrom(INIT, steps) }

  // ---- The invariant ----

  ghost predicate MapsInv(s: Machine) {
    match s.holder
    case None => s.data == Replay(s.log).data && s.meta == Replay(s.log).meta
    case Some(Holder(_, op, phase)) =>
      && s.log != [] && op == s.log[|s.log| - 1]
      && var before, after := Replay(s.log[..|s.log| - 1]), Replay(s.log);
         match phase
         case Loading(d, m) =>
           && s.data == before.data && s.meta == before.meta
           && (d.Some? ==> d.value == before.data) && (m.Some? ==> m.value == before.meta)
         case Published(meta) =>
           s.data == after.data && s.meta == before.meta && meta == after.meta && Succeeds(before, op)
         case Finished(ok) =>
           s.data == after.data && s.meta == after.meta && ok == Succeeds(before, op)
  }

  ghost predicate PcInv(s: Machine, pc: Pc) {
    match pc
    case Waiting(_) => true
    case Reading(_, since) => since <= DataVisible(s)
    case Read(_, since, at, data) => since <= at <= DataVisible(s) && data == Replay(s.log[..at]).data
    case Exporting(since) => since <= DataVisible(s)
    case Exported(since, at, data) => since <= at <= DataVisible(s) && data == Replay(s.log[..at]).data
  }

  ghost predicate ResultInv(log: seq<Op>, r: Result) {
    match r
    case LookupResult(host, since, at, until, answer) =>
      since <= at <= until <= |log| && answer == Lookup(Replay(log[..at]), host)
    case ExportResult(since, at, metaAt, until, state) =>
      && since <= at <= metaAt + 1 && metaAt <= until <= |log| && at <= until
      && state == Combine(Replay(log[..at]).data, Replay(log[..metaAt]).meta)
    case WriteResult(index, op, ok) =>
      index < |log| && log[index] == op && ok == Succeeds(Replay(log[..index]), op)
  }

  ghost predicate Inv(s: Machine) {
    && MapsInv(s)
    && (forall t | t in s.pcs :: PcInv(s, s.pcs[t]))
    && (forall i | 0 <= i < |s.results| :: ResultInv(s.log, s.results[i]))
  }

  lemma DecisionIsSequential(op: Op, s: Store, d: Option<Data>, m: Option<Meta>)
    requires (d.Some? ==> d.value == s.data) && (m.Some? ==> m.value == s.meta)
    ensures
      match Decide(op, d, m)
      case Undecided => true
      case Skip(ok) => Do(s, op) == s && ok == Succeeds(s, op)
      case Write(data, meta) =>
        && Do(s, op) == Store(data, if meta.Some? then meta.value else s.meta) && Succeeds(s, op)
  {
    if op.Drop? && Lower(op.host) !in s.data { assert s.data - {Lower(op.host)} == s.data; }
  }

  lemma MapsInvStep(s: Machine, step: Step)
    requires Inv(s) && Enabled(s, step)
    ensures MapsInv(Fire(s, step))
  {
    if IsLoading(s) {
      var Holder(_, op, phase) := s.holder.value;
      DecisionIsSequential(op, Replay(s.log[..|s.log| - 1]), phase.d, phase.m);
    }
    if step.Lock? { assert (s.log + [s.pcs[step.t].op])[..|s.log|] == s.log; }
  }

  lemma DataIsVisiblePrefix(s: Machine)
    requires MapsInv(s)
    ensures s.data == Replay(s.log[..DataVisible(s)]).data
    ensures s.meta == Replay(s.log[..MetaVisible(s)]).meta
  {
    assert s.log[..|s.log|] == s.log;
  }

  lemma VisibleGrows(s: Machine, step: Step)
    requires MapsInv(s) && Enabled(s, step)
    ensures DataVisible(s) <= DataVisible(Fire(s, step)) <= |Fire(s, step).log|
    ensures s.log <= Fire(s, step).log
  {
  }

  lemma PcInvStep(s: Machine, step: Step, t: nat)
    requires Inv(s) && Enabled(s, step) && t in Fire(s, step).pcs
    ensures PcInv(Fire(s, step), Fire(s, step).pcs[t])
  {
    var u := Fire(s, step);
    VisibleGrows(s, step);
    DataIsVisiblePrefix(s);
    if t in s.pcs && u.pcs[t] == s.pcs[t] {
      assert PcInv(s, s.pcs[t]);
    } else {
      assert u.log == s.log;
      if t in s.pcs { assert PcInv(s, s.pcs[t]); }
    }
    forall at | 0 <= at <= DataVisible(s) ensures u.log[..at] == s.log[..at] {}
  }

  lemma ResultsInvStep(s: Machine, step: Step)
    requires Inv(s) && Enabled(s, step)
    ensures forall i | 0 <= i < |Fire(s, step).results| :: ResultInv(Fire(s, step).log, Fire(s, step).results[i])
  {
    var u := Fire(s, step);
    VisibleGrows(s, step);
    DataIsVisiblePrefix(s);
    forall i | 0 <= i < |u.results| ensures ResultInv(u.log, u.results[i]) {
      if i < |s.results| {
        assert u.results[i] == s.results[i];
        assert ResultInv(s.log, s.results[i]);
        forall at | 0 <= at <= |s.log| ensures u.log[..at] == s.log[..at] {}
      } else if step.LookupReturn? || step.ExportReturn? {
        assert PcInv(s, s.pcs[step.t]);
      }
    }
  }

  /** Holds in every state of every schedule. */
  lemma {:induction false} InvHolds(steps: seq<Step>)
    requires Exec(steps).Some?
    ensures Inv(Exec(steps).value)
  {
    if steps == [] {
    } else {
      var s, step := Exec(steps[..|steps| - 1]).value, steps[|steps| - 1];
      InvHolds(steps[..|steps| - 1]);
      MapsInvStep(s, step);
      forall t | t in Fire(s, step).pcs ensures PcInv(Fire(s, step), Fire(s, step).pcs[t]) { PcInvStep(s, step, t); }
      ResultsInvStep(s, step);
    }
  }

  // ---- What the invariant means ----

  /** Whenever the mutex is free, the maps are the sequential replay of the writes in lock order. */
  lemma FreeMutexMeansReplay(steps: seq<Step>)
    requires Exec(steps).Some? && Exec(steps).value.holder.None?
    ensures var s := Exec(steps).value; Store(s.data, s.meta) == Replay(s.log)
  {
    InvHolds(steps);
  }

  /** Thread t called Lookup(host) at step a of the schedule, when `since` writes were visible. */
  ghost predicate CalledAt(steps: seq<Step>, a: nat, t: nat, host: string, since: nat) {
    && a < |steps| && steps[a] == CallLookup(t, host)
    && Exec(steps[..a]).Some? && since == DataVisible(Exec(steps[..a]).value)
  }

  predicate LookingUp(s: Machine, t: nat) { t in s.pcs && (s.pcs[t].Reading? || s.pcs[t].Read?) }

  lemma LookupComesFromCall(s: Machine, step: Step, t: nat)
    requires Enabled(s, step) && LookingUp(Fire(s, step), t)
    ensures
      var pc := Fire(s, step).pcs[t];
      || (LookingUp(s, t) && s.pcs[t].host == pc.host && s.pcs[t].since == pc.since)
      || (step == CallLookup(t, pc.host) && pc.since == DataVisible(s))
  {
  }

  lemma {:induction false} LookupWasCalled(steps: seq<Step>, t: nat) returns (a: nat)
    requires Exec(steps).Some? && LookingUp(Exec(steps).value, t)
    ensures CalledAt(steps, a, t, Exec(steps).value.pcs[t].host, Exec(steps).value.pcs[t].since)
    decreases |steps|
  {
    var n := |steps| - 1;
    var s := Exec(steps[..n]).value;
    LookupComesFromCall(s, steps[n], t);
    if steps[n] == CallLookup(t, Exec(steps).value.pcs[t].host) {
      a := n;
    } else {
      a := LookupWasCalled(steps[..n], t);
      assert steps[..n][..a] == steps[..a];
    }
  }

  /** How many writes have returned to their callers. */
  function Returned(results: seq<Result>): nat {
    if results == [] then 0
    else Returned(results[..|results| - 1]) + if results[|results| - 1].WriteResult? then 1 else 0
  }

  lemma ReturnedSnoc(results: seq<Result>, r: Result)
    ensures Returned(results + [r]) == Returned(results) + if r.WriteResult? then 1 else 0
  {
    assert (results + [r])[..|results|] == results;
  }

  /** Every write that has taken the mutex has returned, except the one that still holds it. */
  predicate LockedReturn(s: Machine) {
    Returned(s.results) == if s.holder.Some? then |s.log| - 1 else |s.log|
  }

  lemma LockedReturnStep(s: Machine, step: Step)
    requires LockedReturn(s) && Enabled(s, step) && (s.holder.Some? ==> s.log != [])
    ensures LockedReturn(Fire(s, step))
  {
    var u := Fire(s, step);
    if step.Unlock? || step.LookupReturn? || step.ExportReturn? {
      assert u.results == s.results + [u.results[|s.results|]];
      ReturnedSnoc(s.results, u.results[|s.results|]);
    }
  }

  lemma {:induction false} LockedWritesReturn(steps: seq<Step>)
    requires Exec(steps).Some?
    ensures LockedReturn(Exec(steps).value)
  {
    if steps == [] {
    } else {
      var init := steps[..|steps| - 1];
      LockedWritesReturn(init);
      InvHolds(init);
      LockedReturnStep(Exec(init).value, steps[|steps| - 1]);
    }
  }

  /** At any moment the served map shows every write that has returned and none that has not taken the mutex. */
  lemma LoadsAreRecent(steps: seq<Step>)
    requires Exec(steps).Some?
    ensures
      var s := Exec(steps).value;
      Returned(s.results) <= DataVisible(s) <= |s.log| && s.data == Replay(s.log[..DataVisible(s)]).data
  {
    InvHolds(steps);
    LockedWritesReturn(steps);
    DataIsVisiblePrefix(Exec(steps).value);
  }

  lemma {:induction false} LogGrows(steps: seq<Step>, a: nat)
    requires Exec(steps).Some? && a <= |steps|
    ensures Exec(steps[..a]).Some? && Exec(steps[..a]).value.log <= Exec(steps).value.log
    decreases |steps|
  {
    if a == |steps| {
      assert steps[..a] == steps;
    } else {
      var init := steps[..|steps| - 1];
      LogGrows(init, a);
      assert init[..a] == steps[..a];
      InvHolds(init);
      VisibleGrows(Exec(init).value, steps[|steps| - 1]);
    }
  }

  /**
   * A lookup that returns answers as after some prefix of the writes that was current between its call and its return:
   * the prefix has every write that had returned before the call and none that had not taken the mutex by the return.
   */
  lemma LookupsLinearise(steps: seq<Step>, t: nat)
    returns (a: nat, host: string, n: nat, answer: Option<string>)
    requires Exec(steps).Some? && Enabled(Exec(steps).value, LookupReturn(t))
    ensures a < |steps| && steps[a] == CallLookup(t, host) && Exec(steps[..a]).Some?
    ensures Exec(steps[..a]).value.log <= Exec(steps).value.log
    ensures Returned(Exec(steps[..a]).value.results) <= DataVisible(Exec(steps[..a]).value) <= n
    ensures n <= DataVisible(Exec(steps).value) <= |Exec(steps).value.log|
    ensures answer == Lookup(Replay(Exec(steps).value.log[..n]), host)
    ensures
      var results := Fire(Exec(steps).value, LookupReturn(t)).results;
      results != [] && results[|results| - 1].LookupResult? && results[|results| - 1].answer == answer
  {
    var s := Exec(steps).value;
    InvHolds(steps);
    assert PcInv(s, s.pcs[t]);
    a := LookupWasCalled(steps, t);
    host, n, answer := s.pcs[t].host, s.pcs[t].at, Lookup(Replay(s.log[..s.pcs[t].at]), s.pcs[t].host);
    LoadsAreRecent(steps[..a]);
    LogGrows(steps, a);
  }

  /** Every finished write returned what it would return in the sequential replay. */
  lemma WritesReturnSequentially(steps: seq<Step>, i: nat)
    requires Exec(steps).Some? && i < |Exec(steps).value.results| && Exec(steps).value.results[i].WriteResult?
    ensures
      var s := Exec(steps).value;
      var r := s.results[i];
      r.index < |s.log| && s.log[r.index] == r.op && r.ok == Succeeds(Replay(s.log[..r.index]), r.op)
  {
    InvHolds(steps);
    var s := Exec(steps).value;
    assert ResultInv(s.log, s.results[i]);
  }

  // ---- Exports load twice ----

  /** An export pairs the data after one prefix with the stamps after another; the two prefixes may differ. */
  lemma ExportsReadTwoPrefixes(steps: seq<Step>, i: nat)
    requires Exec(steps).Some? && i < |Exec(steps).value.results| && Exec(steps).value.results[i].ExportResult?
    ensures
      var s := Exec(steps).value;
      var r := s.results[i];
      && r.since <= r.at <= r.until && r.at <= r.metaAt + 1 && r.metaAt <= r.until <= |s.log|
      && r.state == Combine(Replay(s.log[..r.at]).data, Replay(s.log[..r.metaAt]).meta)
      && (r.at == r.metaAt ==> r.state == Export(Replay(s.log[..r.at])))
  {
    InvHolds(steps);
    var s := Exec(steps).value;
    assert ResultInv(s.log, s.results[i]);
  }

  lemma {:induction false} ExecFromConcat(s: Machine, a: seq<Step>, b: seq<Step>)
    requires ExecFrom(s, a).Some?
    ensures ExecFrom(s, a + b) == ExecFrom(ExecFrom(s, a).value, b)
    decreases |b|
  {
    if b == [] {
      assert a + b == a;
    } else {
      assert (a + b)[..|a + b| - 1] == a + b[..|b| - 1];
      ExecFromConcat(s, a, b[..|b| - 1]);
    }
  }

  lemma ExecFromOne(s: Machine, step: Step)
    requires Enabled(s, step)
    ensures ExecFrom(s, [step]) == Some(Fire(s, step))
  {
    assert [step][..0] == [];
  }

  lemma ExecFromTwo(s: Machine, a: Step, b: Step)
    requires Enabled(s, a) && Enabled(Fire(s, a), b)
    ensures ExecFrom(s, [a, b]) == Some(Fire(Fire(s, a), b))
  {
    ExecFromOne(s, a);
    ExecFromOne(Fire(s, a), b);
    ExecFromConcat(s, [a], [b]);
    assert [a] + [b] == [a, b];
  }

  lemma LockAndLoad(s: Machine, t: nat, m: Message) returns (steps: seq<Step>)
    requires s.holder.None? && t !in s.pcs && TakesMutex(Deliver(m))
    ensures
      var held := Holder(t, Deliver(m), Loading(Some(s.data), Some(s.meta)));
      ExecFrom(s, steps) == Some(s.(holder := Some(held), log := s.log + [Deliver(m)]))
  {
    var call, lock := CallWrite(t, Deliver(m)), Lock(t);
    ExecFromTwo(s, call, lock);
    var a := Fire(Fire(s, call), lock);
    assert a.pcs == s.pcs;
    ExecFromTwo(a, LoadMeta, LoadData);
    ExecFromConcat(s, [call, lock], [LoadMeta, LoadData]);
    steps := [call, lock] + [LoadMeta, LoadData];
  }

  /** A stamped add that nobody disturbs. */
  lemma AddAlone(s: Machine, t: nat, m: Message) returns (steps: seq<Step>)
    requires s.holder.None? && t !in s.pcs && m.action == Add && !Blocked(s.meta, Key(m), m.stamp)
    ensures ExecFrom(s, steps) == Some(Machine(s.data[Key(m) := m.ip], s.meta[Key(m) := m.stamp], None, s.pcs,
                                               s.log + [Deliver(m)],
                                               s.results + [WriteResult(|s.log|, Deliver(m), true)]))
  {
    steps := LockAndLoad(s, t, m);
    var b := ExecFrom(s, steps).value;
    ExecFromTwo(b, PublishData, PublishMeta);
    var c := Fire(Fire(b, PublishData), PublishMeta);
    ExecFromOne(c, Unlock);
    ExecFromConcat(s, steps, [PublishData, PublishMeta]);
    steps := steps + [PublishData, PublishMeta];
    ExecFromConcat(s, steps, [Unlock]);
    steps := steps + [Unlock];
  }

  /** Continue a schedule. */
  lemma Extend(steps: seq<Step>, more: seq<Step>)
    requires Exec(steps).Some?
    ensures Exec(steps + more) == ExecFrom(Exec(steps).value, more)
  {
    ExecFromConcat(INIT, steps, more);
  }

  lemma AddThenLoad(m: Message) returns (steps: seq<Step>)
    requires m.action == Add
    ensures Exec(steps) == Some(Machine(map[Key(m) := m.ip], map[Key(m) := m.stamp], None,
                                        map[1 := Exported(1, 1, map[Key(m) := m.ip])],
                                        [Deliver(m)], [WriteResult(0, Deliver(m), true)]))
  {
    steps := AddAlone(INIT, 0, m);
    var s := Exec(steps).value;
    ExecFromTwo(s, CallExport(1), ExportLoad(1));
    Extend(steps, [CallExport(1), ExportLoad(1)]);
    assert s.log == [Deliver(m)] && s.results == [WriteResult(0, Deliver(m), true)];
    assert Fire(Fire(s, CallExport(1)), ExportLoad(1)).pcs == map[1 := Exported(1, 1, map[Key(m) := m.ip])];
    steps := steps + [CallExport(1), ExportLoad(1)];
  }

  /** Whenever a newer add replaces an older one, an export can pair the old address with the new stamp. */
  lemma TornExportExists(older: Message, newer: Message) returns (steps: seq<Step>)
    requires older.action == Add && newer.action == Add && Key(older) == Key(newer)
    requires !StampLe(newer.stamp, older.stamp)
    ensures Exec(steps).Some? && Exec(steps).value.log == [Deliver(older), Deliver(newer)]
    ensures ExportResult(1, 1, 2, 2, map[Key(older) := Entry(older.ip, newer.stamp)]) in Exec(steps).value.results
  {
    var k := Key(older);
    steps := AddThenLoad(older);
    var more := AddAlone(Exec(steps).value, 0, newer);
    Extend(steps, more);
    steps := steps + more;
    var s := Exec(steps).value;
    ExecFromOne(s, ExportReturn(1));
    Extend(steps, [ExportReturn(1)]);
    steps := steps + [ExportReturn(1)];
    assert Combine(map[k := older.ip], s.meta) == map[k := Entry(older.ip, newer.stamp)];
    var torn := ExportResult(1, 1, 2, 2, map[k := Entry(older.ip, newer.stamp)]);
    assert Fire(s, ExportReturn(1)).results[|s.results|] == torn;
  }
}
