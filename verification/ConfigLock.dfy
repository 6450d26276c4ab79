/** The configuration lock: every interleaving of the RDI thread with parameter updates. */
module ConfigLock {
  import opened PointCloud
  import Floats
  import Rdi

  // ----- A parameter update -----

  datatype Change = FrameId(name: string) | MinRange(f: Floats.Float) | MaxRange(f: Floats.Float)
                  | MinSnr(f: Floats.Float)
                  | MinExistence(f: Floats.Float) | Unrelated

  function Changed(c: Config, change: Change): Config {
    match change
    case FrameId(n) => c.(frameId := n)
    case MinRange(f) => c.(minRange := f)
    case MaxRange(f) => c.(maxRange := f)
    case MinSnr(f) => c.(minSnr := f)
    case MinExistence(f) => c.(minExistence := f)
    case Unrelated => c
  }

  /** A callback's changes in turn. */
  function Applied(c: Config, changes: seq<Change>): Config {
    if changes == [] then c else Changed(Applied(c, changes[..|changes| - 1]), changes[|changes| - 1])
  }

  /** One more change sets its own parameter and no other. */
  lemma AppliedStep(c: Config, before: seq<Change>, name: string, f: Floats.Float)
    ensures var a := Applied(c, before);
            && Applied(c, before + [FrameId(name)]) == Config(name, a.minRange, a.maxRange, a.minSnr, a.minExistence)
            && Applied(c, before + [MinRange(f)]) == Config(a.frameId, f, a.maxRange, a.minSnr, a.minExistence)
            && Applied(c, before + [MaxRange(f)]) == Config(a.frameId, a.minRange, f, a.minSnr, a.minExistence)
            && Applied(c, before + [MinSnr(f)]) == Config(a.frameId, a.minRange, a.maxRange, f, a.minExistence)
            && Applied(c, before + [MinExistence(f)]) == Config(a.frameId, a.minRange, a.maxRange, a.minSnr, f)
            && Applied(c, before + [Unrelated]) == a
  {
    AppliedLast(c, before, FrameId(name));
    AppliedLast(c, before, MinRange(f));
    AppliedLast(c, before, MaxRange(f));
    AppliedLast(c, before, MinSnr(f));
    AppliedLast(c, before, MinExistence(f));
    AppliedLast(c, before, Unrelated);
  }

  lemma AppliedLast(c: Config, before: seq<Change>, change: Change)
    ensures Applied(c, before + [change]) == Changed(Applied(c, before), change)
  {
    assert (before + [change])[..|before|] == before;
  }

  lemma {:induction false} AppliedAdds(c: Config, a: seq<Change>, b: seq<Change>)
    ensures Applied(c, a + b) == Applied(Applied(c, a), b)
    decreases |b|
  {
    if b == [] {
      assert a + b == a;
    } else {
      var n := |b| - 1;
      assert a + b == (a + b[..n]) + [b[n]];
      AppliedLast(c, a + b[..n], b[n]);
      AppliedAdds(c, a, b[..n]);
    }
  }

  /** A parameter that no change of the callback names keeps its value. */
  lemma {:induction false} UnnamedStays(c: Config, changes: seq<Change>)
    ensures var a := Applied(c, changes);
            && ((forall k :: 0 <= k < |changes| ==> !changes[k].FrameId?) ==> a.frameId == c.frameId)
            && ((forall k :: 0 <= k < |changes| ==> !changes[k].MinRange?) ==> a.minRange == c.minRange)
            && ((forall k :: 0 <= k < |changes| ==> !changes[k].MaxRange?) ==> a.maxRange == c.maxRange)
            && ((forall k :: 0 <= k < |changes| ==> !changes[k].MinSnr?) ==> a.minSnr == c.minSnr)
            && ((forall k :: 0 <= k < |changes| ==> !changes[k].MinExistence?) ==> a.minExistence == c.minExistence)
  {
    if changes != [] {
      var n := |changes| - 1;
      UnnamedStays(c, changes[..n]);
      assert forall k :: 0 <= k < n ==> changes[..n][k] == changes[k];
    }
  }

  /** A parameter named more than once gets the value of the last change that names it, whatever came before. */
  lemma LastWins(c: Config, before: seq<Change>, change: Change, after: seq<Change>)
    ensures var a := Applied(c, before + [change] + after);
            && (change.FrameId? && (forall k :: 0 <= k < |after| ==> !after[k].FrameId?) ==> a.frameId == change.name)
            && (change.MinRange? && (forall k :: 0 <= k < |after| ==> !after[k].MinRange?) ==> a.minRange == change.f)
            && (change.MaxRange? && (forall k :: 0 <= k < |after| ==> !after[k].MaxRange?) ==> a.maxRange == change.f)
            && (change.MinSnr? && (forall k :: 0 <= k < |after| ==> !after[k].MinSnr?) ==> a.minSnr == change.f)
            && (change.MinExistence? && (forall k :: 0 <= k < |after| ==> !after[k].MinExistence?) ==>
                  a.minExistence == change.f)
  {
    AppliedAdds(c, before + [change], after);
    AppliedLast(c, before, change);
    UnnamedStays(Applied(c, before + [change]), after);
  }

  predicate Touches(changes: seq<Change>) {
    exists k :: 0 <= k < |changes| && !changes[k].Unrelated?
  }

  /** It counts as a change as soon as one of the five parameters is named. */
  lemma TouchesExactly(before: seq<Change>, change: Change)
    ensures !Touches([])
    ensures Touches(before + [change]) <==> Touches(before) || change != Unrelated
  {
    var all := before + [change];
    if Touches(before) {
      var k :| 0 <= k < |before| && !before[k].Unrelated?;
      assert all[k] == before[k];
    }
    assert all[|before|] == change;
  }

  /** The first half of on_parameter_change: new values are collected before the lock is taken. */
  method Collect(current: Config, changes: seq<Change>) returns (next: Config, changed: bool)
    ensures next == Applied(current, changes) && changed == Touches(changes)
  {
    next, changed := current, false;
    for i := 0 to |changes|
      invariant next == Applied(current, changes[..i])
      invariant changed == Touches(changes[..i])
    {
      assert changes[..i + 1][..i] == changes[..i];
      assert forall k :: 0 <= k < i ==> changes[..i + 1][k] == changes[..i][k];
      match changes[i] {
        case FrameId(n) => next, changed := next.(frameId := n), true;
        case MinRange(f) => next, changed := next.(minRange := f), true;
        case MaxRange(f) => next, changed := next.(maxRange := f), true;
        case MinSnr(f) => next, changed := next.(minSnr := f), true;
        case MinExistence(f) => next, changed := next.(minExistence := f), true;
        case Unrelated =>
      }
      assert changes[..i + 1][i] == changes[i];
    }
    assert changes[..|changes|] == changes;
  }

  lemma UntouchedStays(c: Config, changes: seq<Change>)
    requires !Touches(changes)
    ensures Applied(c, changes) == c
  {
    if changes != [] {
      var n := |changes| - 1;
      assert changes[n].Unrelated?;
      assert forall k :: 0 <= k < n ==> changes[..n][k] == changes[k];
      UntouchedStays(c, changes[..n]);
    }
  }

  /** on_parameter_change, undisturbed: fields and builder both end with the callback's changes applied. */
  method ChangeParameters(builder: PointCloudBuilder, fields: Config, changes: seq<Change>) returns (next: Config)
    requires builder.config == fields
    modifies builder
    ensures next == Applied(fields, changes) && builder.config == next
  {
    var changed;
    next, changed := Collect(fields, changes);
    if changed {
      builder.UpdateConfig(next);
    } else {
      UntouchedStays(fields, changes);
    }
  }

  // ----- The two threads -----

  datatype Holder = Free | Rdi | Params

  /** Where the RDI thread is in on_rdi_frame; `version` counts the updates installed when it took the lock. */
  datatype RdiAt = RdiIdle | Arrived(frame: Rdi.Frame) | Entered(frame: Rdi.Frame, version: nat)
                 | CloudBuilt(frame: Rdi.Frame, version: nat, cloud: Cloud)
                 | ArrayBuilt(frame: Rdi.Frame, version: nat, cloud: Cloud, arr: DetectionArray)

  /** Where the parameter thread is in on_parameter_change; `written` of the five fields are assigned. */
  datatype ParamsAt = ParamsIdle | Collected(changes: seq<Change>, next: Config)
                    | Writing(changes: seq<Change>, next: Config, written: nat)
                    | Updated(changes: seq<Change>, next: Config)

  datatype Shown = Shown(frame: Rdi.Frame, version: nat, cloud: Cloud, arr: DetectionArray)

  /** `configs` and `updates` record every installed configuration and the callback that installed it. */
  datatype State = State(lock: Holder, fields: Config, builder: Config, rdi: RdiAt, params: ParamsAt, log: seq<Shown>,
                         configs: seq<Config>, updates: seq<seq<Change>>)

  datatype Action = FrameArrives(frame: Rdi.Frame) | RdiLocks | BuildCloud | BuildArray | RdiUnlocks
                  | CallbackStarts(changes: seq<Change>) | ParamsLock | WriteField | UpdateBuilder | ParamsUnlock

  function Initial(c: Config): State {
    State(Free, c, c, RdiIdle, ParamsIdle, [], [c], [])
  }

  // The fields with the first `written` of the five taken from `next`.
  function Torn(before: Config, next: Config, written: nat): Config {
    Config(if written > 0 then next.frameId else before.frameId,
           if written > 1 then next.minRange else before.minRange,
           if written > 2 then next.maxRange else before.maxRange,
           if written > 3 then next.minSnr else before.minSnr,
           if written > 4 then next.minExistence else before.minExistence)
  }

  function WriteNext(c: Config, next: Config, written: nat): Config {
    match written
    case 0 => c.(frameId := next.frameId)
    case 1 => c.(minRange := next.minRange)
    case 2 => c.(maxRange := next.maxRange)
    case 3 => c.(minSnr := next.minSnr)
    case _ => c.(minExistence := next.minExistence)
  }

  /** One step of either thread; an action whose turn it is not changes nothing. */
  function Do(project: Projection, s: State, a: Action): State {
    match a
    case FrameArrives(f) => if s.rdi.RdiIdle? then s.(rdi := Arrived(f)) else s
    case RdiLocks =>
      if s.rdi.Arrived? && s.lock == Free
      then s.(rdi := Entered(s.rdi.frame, |s.updates|), lock := Rdi) else s
    case BuildCloud =>
      if s.rdi.Entered?
      then s.(rdi := CloudBuilt(s.rdi.frame, s.rdi.version, CloudOf(project, s.builder, s.rdi.frame))) else s
    case BuildArray =>
      if s.rdi.CloudBuilt?
      then s.(rdi := ArrayBuilt(s.rdi.frame, s.rdi.version, s.rdi.cloud, ArrayOf(project, s.builder, s.rdi.frame)))
      else s
    case RdiUnlocks =>
      if s.rdi.ArrayBuilt?
      then s.(lock := Free, rdi := RdiIdle,
              log := s.log + [Shown(s.rdi.frame, s.rdi.version, s.rdi.cloud, s.rdi.arr)]) else s
    case CallbackStarts(changes) =>
      if s.params.ParamsIdle? && Touches(changes)
      then s.(params := Collected(changes, Applied(s.fields, changes))) else s
    case ParamsLock =>
      if s.params.Collected? && s.lock == Free
      then s.(lock := Params, params := Writing(s.params.changes, s.params.next, 0)) else s
    case WriteField =>
      if s.params.Writing? && s.params.written < 5
      then s.(fields := WriteNext(s.fields, s.params.next, s.params.written),
              params := Writing(s.params.changes, s.params.next, s.params.written + 1)) else s
    case UpdateBuilder =>
      if s.params.Writing? && s.params.written == 5
      then s.(builder := s.params.next, params := Updated(s.params.changes, s.params.next),
              configs := s.configs + [s.params.next], updates := s.updates + [s.params.changes]) else s
    case ParamsUnlock =>
      if s.params.Updated? then s.(lock := Free, params := ParamsIdle) else s
  }

  function Run(project: Projection, s: State, actions: seq<Action>): State
    decreases |actions|
  {
    if actions == [] then s else Run(project, Do(project, s, actions[0]), actions[1..])
  }

  // ----- What every interleaving keeps -----

  /** One configuration made both outputs of a frame. */
  ghost predicate MadeBy(project: Projection, p: Shown, c: Config) {
    p.cloud == CloudOf(project, c, p.frame) && p.arr == ArrayOf(project, c, p.frame)
  }

  /** The frame shows the configuration that was the newest installed when it took the lock. */
  ghost predicate Consistent(project: Projection, configs: seq<Config>, p: Shown) {
    p.version < |configs| && MadeBy(project, p, configs[p.version])
  }

  // Later frames never go back to an earlier configuration.
  ghost predicate NeverBack(log: seq<Shown>) {
    forall i, j :: 0 <= i < j < |log| ==> log[i].version <= log[j].version
  }

  // Every configuration is the one before it with one whole callback applied.
  ghost predicate Serial(configs: seq<Config>, updates: seq<seq<Change>>) {
    && |configs| == |updates| + 1
    && forall k :: 0 <= k < |updates| ==> configs[k + 1] == Applied(configs[k], updates[k])
  }

  ghost predicate LockHeld(s: State) {
    && (s.lock == Rdi <==> s.rdi.Entered? || s.rdi.CloudBuilt? || s.rdi.ArrayBuilt?)
    && (s.lock == Params <==> s.params.Writing? || s.params.Updated?)
  }

  ghost predicate RdiSound(project: Projection, s: State) {
    match s.rdi
    case Entered(f, version) => version == |s.updates|
    case CloudBuilt(f, version, cloud) => version == |s.updates| && cloud == CloudOf(project, s.builder, f)
    case ArrayBuilt(f, version, cloud, arr) =>
      version == |s.updates| && cloud == CloudOf(project, s.builder, f) && arr == ArrayOf(project, s.builder, f)
    case _ => true
  }

  ghost predicate ParamsSound(s: State) {
    match s.params
    case Writing(changes, next, written) =>
      written <= 5 && next == Applied(s.builder, changes) && s.fields == Torn(s.builder, next, written)
    case Updated(_, next) => s.fields == next == s.builder
    case Collected(changes, next) => next == Applied(s.builder, changes) && s.fields == s.builder
    case ParamsIdle => s.fields == s.builder
  }

  ghost predicate LogSound(project: Projection, s: State) {
    NeverBack(s.log) && forall i :: 0 <= i < |s.log| ==> Consistent(project, s.configs, s.log[i])
  }

  ghost predicate Inv(project: Projection, s: State) {
    && LockHeld(s) && RdiSound(project, s) && ParamsSound(s)
    && Serial(s.configs, s.updates) && s.builder == s.configs[|s.configs| - 1]
    && LogSound(project, s)
  }

  lemma PublishKeeps(project: Projection, s: State)
    requires Inv(project, s) && s.rdi.ArrayBuilt?
    ensures Inv(project, Do(project, s, RdiUnlocks))
  {
    var p := Shown(s.rdi.frame, s.rdi.version, s.rdi.cloud, s.rdi.arr);
    assert Consistent(project, s.configs, p);
    assert forall i :: 0 <= i < |s.log| ==> s.log[i].version <= |s.updates|;
  }

  lemma InstallKeeps(project: Projection, s: State)
    requires Inv(project, s) && s.params.Writing? && s.params.written == 5
    ensures Inv(project, Do(project, s, UpdateBuilder))
  {
    var configs := s.configs + [s.params.next];
    forall i | 0 <= i < |s.log| ensures Consistent(project, configs, s.log[i]) {
      assert configs[s.log[i].version] == s.configs[s.log[i].version];
    }
  }

  lemma StepKeeps(project: Projection, s: State, a: Action)
    requires Inv(project, s)
    ensures Inv(project, Do(project, s, a))
  {
    if a.RdiUnlocks? && s.rdi.ArrayBuilt? {
      PublishKeeps(project, s);
    } else if a.UpdateBuilder? && s.params.Writing? && s.params.written == 5 {
      InstallKeeps(project, s);
    }
  }

  lemma {:induction false} RunKeeps(project: Projection, s: State, actions: seq<Action>)
    requires Inv(project, s)
    ensures Inv(project, Run(project, s, actions))
    decreases |actions|
  {
    if actions != [] {
      StepKeeps(project, s, actions[0]);
      RunKeeps(project, Do(project, s, actions[0]), actions[1..]);
    }
  }

  /**
   * Over every interleaving: the cloud and the array of each published frame come from one and the
   * same configuration, the newest that a whole callback (or the constructor) had installed when the
   * frame took the lock, never a torn one and never going back; no callback's changes are lost; and
   * whenever the lock is free the builder has the node's fields.
   */
  lemma EveryInterleaving(project: Projection, c: Config, actions: seq<Action>)
    ensures var s := Run(project, Initial(c), actions);
            && (forall i :: 0 <= i < |s.log| ==> Consistent(project, s.configs, s.log[i]))
            && NeverBack(s.log)
            && Serial(s.configs, s.updates) && s.configs[0] == c
            && (s.lock == Free ==> s.builder == s.fields == s.configs[|s.configs| - 1])
  {
    RunKeeps(project, Initial(c), actions);
    FirstConfigStays(project, Initial(c), actions);
  }

  lemma {:induction false} FirstConfigStays(project: Projection, s: State, actions: seq<Action>)
    requires s.configs != []
    ensures var t := Run(project, s, actions); t.configs != [] && t.configs[0] == s.configs[0]
    decreases |actions|
  {
    if actions != [] {
      FirstConfigStays(project, Do(project, s, actions[0]), actions[1..]);
    }
  }

  // ----- Whoever takes the lock gets done and gives it back -----

  lemma {:induction false} RunAdds(project: Projection, s: State, a: seq<Action>, b: seq<Action>)
    ensures Run(project, s, a + b) == Run(project, Run(project, s, a), b)
    decreases |a|
  {
    if a == [] {
      assert a + b == b;
    } else {
      assert (a + b)[1..] == a[1..] + b;
      RunAdds(project, Do(project, s, a[0]), a[1..], b);
    }
  }

  lemma Steps(project: Projection, s: State, a: Action, rest: seq<Action>)
    ensures Run(project, s, [a] + rest) == Run(project, Do(project, s, a), rest)
    ensures Run(project, s, [a]) == Do(project, s, a)
  {
    assert ([a] + rest)[1..] == rest && [a][1..] == [];
    assert Run(project, Do(project, s, a), []) == Do(project, s, a);
  }

  lemma TwoSteps(project: Projection, s: State, a: Action, b: Action)
    ensures Run(project, s, [a, b]) == Do(project, Do(project, s, a), b)
  {
    assert [a, b] == [a] + [b];
    Steps(project, s, a, [b]);
    Steps(project, Do(project, s, a), b, []);
  }

  lemma ThreeSteps(project: Projection, s: State, a: Action, b: Action, c: Action)
    ensures Run(project, s, [a, b, c]) == Do(project, Do(project, Do(project, s, a), b), c)
  {
    assert [a, b, c] == [a] + [b, c];
    Steps(project, s, a, [b, c]);
    TwoSteps(project, Do(project, s, a), b, c);
  }

  function Writes(k: nat): seq<Action> {
    if k == 0 then [] else [WriteField] + Writes(k - 1)
  }

  // The assignments still to come replace what is left of the fields.
  lemma {:induction false} RestWritten(project: Projection, s: State, before: Config, k: nat)
    requires s.params.Writing? && s.params.written + k == 5 && s.fields == Torn(before, s.params.next, s.params.written)
    ensures Run(project, s, Writes(k))
         == s.(fields := s.params.next, params := Writing(s.params.changes, s.params.next, 5))
    decreases k
  {
    if k > 0 {
      Steps(project, s, WriteField, Writes(k - 1));
      RestWritten(project, Do(project, s, WriteField), before, k - 1);
    }
  }

  // All of it from any moment of the writing on: the new configuration is in and the lock is free.
  lemma WritingFinishes(project: Projection, s: State, k: nat)
    requires s.params.Writing? && s.params.written + k == 5
    requires s.fields == Torn(s.builder, s.params.next, s.params.written)
    ensures Run(project, s, Writes(k) + [UpdateBuilder, ParamsUnlock])
         == State(Free, s.params.next, s.params.next, s.rdi, ParamsIdle, s.log,
                  s.configs + [s.params.next], s.updates + [s.params.changes])
  {
    RestWritten(project, s, s.builder, k);
    var t := Run(project, s, Writes(k));
    RunAdds(project, s, Writes(k), [UpdateBuilder, ParamsUnlock]);
    TwoSteps(project, t, UpdateBuilder, ParamsUnlock);
  }

  /** A callback that finds the lock free installs its changes, in the node's fields and the builder alike. */
  lemma CallbackInstalls(project: Projection, s: State, changes: seq<Change>)
    requires Inv(project, s) && s.lock == Free && s.params.ParamsIdle? && Touches(changes)
    ensures var next := Applied(s.builder, changes);
            var run := [CallbackStarts(changes), ParamsLock] + (Writes(5) + [UpdateBuilder, ParamsUnlock]);
            Run(project, s, run) == State(Free, next, next, s.rdi, ParamsIdle, s.log,
                                          s.configs + [next], s.updates + [changes])
  {
    var before := Do(project, s, CallbackStarts(changes));
    var t := Do(project, before, ParamsLock);
    TwoSteps(project, s, CallbackStarts(changes), ParamsLock);
    RunAdds(project, s, [CallbackStarts(changes), ParamsLock], Writes(5) + [UpdateBuilder, ParamsUnlock]);
    StepKeeps(project, s, CallbackStarts(changes));
    StepKeeps(project, before, ParamsLock);
    WritingFinishes(project, t, 5);
  }

  /** A frame that finds the lock free is published with the cloud and the array of the builder's configuration. */
  lemma FramePublishes(project: Projection, s: State, f: Rdi.Frame)
    requires s.lock == Free && s.rdi.RdiIdle?
    ensures var shown := Shown(f, |s.updates|, CloudOf(project, s.builder, f), ArrayOf(project, s.builder, f));
            var run := [FrameArrives(f), RdiLocks] + [BuildCloud, BuildArray, RdiUnlocks];
            Run(project, s, run) == s.(log := s.log + [shown])
  {
    var t := Do(project, Do(project, s, FrameArrives(f)), RdiLocks);
    RunAdds(project, s, [FrameArrives(f), RdiLocks], [BuildCloud, BuildArray, RdiUnlocks]);
    TwoSteps(project, s, FrameArrives(f), RdiLocks);
    ThreeSteps(project, t, BuildCloud, BuildArray, RdiUnlocks);
  }

  /** From any state of any run the lock can be given back: its holder waits for nobody. */
  lemma HolderFinishes(project: Projection, s: State) returns (actions: seq<Action>)
    requires Inv(project, s)
    ensures Run(project, s, actions).lock == Free
  {
    if s.lock == Rdi {
      actions := [BuildCloud, BuildArray, RdiUnlocks];
      ThreeSteps(project, s, BuildCloud, BuildArray, RdiUnlocks);
    } else if s.params.Writing? {
      var k := 5 - s.params.written;
      actions := Writes(k) + [UpdateBuilder, ParamsUnlock];
      WritingFinishes(project, s, k);
    } else {
      actions := [ParamsUnlock];
      Steps(project, s, ParamsUnlock, []);
    }
  }

  // ----- Updates against frames in real time -----

  // How many frames have taken the lock so far.
  function Locked(s: State): nat {
    |s.log| + if s.lock == Rdi then 1 else 0
  }

  // Frames from the `from`-th to take the lock on show at least the n-th installed update.
  ghost predicate Floor(s: State, from: nat, n: nat) {
    && n <= |s.updates| && from <= Locked(s)
    && (forall i :: from <= i < |s.log| ==> n <= s.log[i].version)
  }

  // What is shown stays shown, and what is installed stays installed.
  ghost predicate Extends(s: State, t: State) {
    s.log <= t.log && s.configs <= t.configs && s.updates <= t.updates
  }

  lemma StepExtends(project: Projection, s: State, a: Action)
    ensures Extends(s, Do(project, s, a))
  {
  }

  lemma FloorStep(project: Projection, s: State, a: Action, from: nat, n: nat)
    requires Inv(project, s) && Floor(s, from, n)
    ensures Floor(Do(project, s, a), from, n)
  {
    if a.RdiUnlocks? && s.rdi.ArrayBuilt? {
      assert s.rdi.version == |s.updates|;
    }
  }

  lemma {:induction false} FloorRun(project: Projection, s: State, actions: seq<Action>, from: nat, n: nat)
    requires Inv(project, s) && Floor(s, from, n)
    ensures Floor(Run(project, s, actions), from, n) && Extends(s, Run(project, s, actions))
    decreases |actions|
  {
    if actions != [] {
      StepKeeps(project, s, actions[0]);
      FloorStep(project, s, actions[0], from, n);
      StepExtends(project, s, actions[0]);
      FloorRun(project, Do(project, s, actions[0]), actions[1..], from, n);
    }
  }

  /**
   * At any moment of any run: the frames published so far show updates installed so far and are never
   * changed again, and every frame that takes the lock later shows all the updates installed by then.
   */
  lemma UpdatesTakeEffect(project: Projection, c: Config, before: seq<Action>, after: seq<Action>)
    ensures var s := Run(project, Initial(c), before);
            var t := Run(project, s, after);
            && Extends(s, t)
            && (forall i :: 0 <= i < |s.log| ==> t.log[i].version <= |s.updates|)
            && (forall i :: Locked(s) <= i < |t.log| ==> |s.updates| <= t.log[i].version)
  {
    var s := Run(project, Initial(c), before);
    RunKeeps(project, Initial(c), before);
    FloorRun(project, s, after, Locked(s), |s.updates|);
    assert forall i :: 0 <= i < |s.log| ==> Run(project, s, after).log[i] == s.log[i];
    assert forall i :: 0 <= i < |s.log| ==> Consistent(project, s.configs, s.log[i]);
  }
}
