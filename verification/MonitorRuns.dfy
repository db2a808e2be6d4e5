/**
 What holds over every run of the monitor, from module load on, whoever calls what.
 */
module MonitorRuns {
  import opened Digests
  import opened Errno
  import opened Monitor
  import opened Paths
  import opened Registry
  import opened Wrappers

  /** The state after the operations, one after the other, from the initial state. */
  function After(cfg: Config, ops: seq<Op>): Instance {
    if ops == [] then INITIAL
    else Step(cfg, After(cfg, ops[..|ops| - 1]), ops[|ops| - 1])
  }

  /** The result that the k-th operation of the run got. */
  function ResultAt(cfg: Config, ops: seq<Op>, k: nat): int
    requires k < |ops|
  {
    ResultOf(cfg, After(cfg, ops[..k]), ops[k])
  }

  /** The running monitor performs exactly these runs. */
  method RunAll(m: RefMonitor, ops: seq<Op>) returns (results: seq<int>)
    requires m.Valid() && m.Abstract() == INITIAL
    modifies m, m.registry.Repr
    ensures m.Valid() && m.Abstract() == After(m.cfg, ops)
    ensures |results| == |ops| && forall k :: 0 <= k < |ops| ==> results[k] == ResultAt(m.cfg, ops, k)
  {
    results := [];
    for i := 0 to |ops|
      invariant m.Valid() && fresh(m.registry.Repr - old(m.registry.Repr))
      invariant m.Abstract() == After(m.cfg, ops[..i])
      invariant |results| == i && forall k :: 0 <= k < i ==> results[k] == ResultAt(m.cfg, ops, k)
    {
      assert ops[..i + 1][..i] == ops[..i];
      var ret := m.Execute(ops[i]);
      results := results + [ret];
    }
    assert ops[..|ops|] == ops;
  }

  // ----- probes, results and guards

  /** All five probes are enabled in the ON states and all five are disabled in the others. */
  lemma {:induction false} ProbesFollowState(cfg: Config, ops: seq<Op>)
    ensures After(cfg, ops).probes == AllProbes(After(cfg, ops).state == ON || After(cfg, ops).state == REC_ON)
  {
    if ops != [] {
      ProbesFollowState(cfg, ops[..|ops| - 1]);
    }
  }

  predicate HasPassword(op: Op) {
    !op.SetState?
  }

  /** A changed registry is the work of root, in a REC state, with the password's digest. */
  lemma RegistryGuarded(cfg: Config, inst: Instance, op: Op, secret: string)
    requires cfg.password == Hex(cfg.digest(secret))
    requires Step(cfg, inst, op).registry != inst.registry
    ensures HasPassword(op) && op.euid == 0 && (inst.state == REC_OFF || inst.state == REC_ON)
    ensures op.password != [] && cfg.digest(op.password) == cfg.digest(secret)
    ensures ResultOf(cfg, inst, op) == 0
  {
    AllChecksPass(cfg, inst.state, op.euid, op.password, secret);
  }

  /** Root reaches every state by its name, from every state, and by no other name. */
  lemma SetStateExact(cfg: Config, inst: Instance, name: string, s: RefmonState)
    ensures name == StateToString(s) ==>
              && ResultOf(cfg, inst, SetState(0, name)) == 0
              && Step(cfg, inst, SetState(0, name)) == Instance(s, inst.registry, AllProbes(IsOn(s)))
    ensures ResultOf(cfg, inst, SetState(0, name)) == -EINVAL <==> StringToState(name).None?
  {
    StateNamesRoundTrip(s, name);
  }

  /** While no REC state is entered the registry stays as it is. */
  lemma {:induction false} FrozenOutsideRec(cfg: Config, ops: seq<Op>, more: seq<Op>)
    requires forall k :: 0 <= k < |more| ==> !IsReconf(After(cfg, ops + more[..k]).state)
    ensures After(cfg, ops + more).registry == After(cfg, ops).registry
  {
    if more == [] {
      assert ops + more == ops;
    } else {
      var last := |more| - 1;
      var before := more[..last];
      assert forall k :: 0 <= k < last ==> before[..k] == more[..k];
      FrozenOutsideRec(cfg, ops, before);
      assert (ops + more)[..|ops + more| - 1] == ops + before;
      NothingWithoutRec(cfg, After(cfg, ops + before), more[last]);
    }
  }

  lemma NothingWithoutRec(cfg: Config, inst: Instance, op: Op)
    requires !IsReconf(inst.state)
    ensures Step(cfg, inst, op).registry == inst.registry
    ensures HasPassword(op) ==> ResultOf(cfg, inst, op) == if op.euid == 0 then -EPERM else -EACCES
  {
  }

  // ----- the registry

  ghost predicate AbsoluteOp(op: Op) {
    match op
    case Add(_, env, _, _) => AbsoluteCwd(env)
    case Rm(_, env, _, _) => AbsoluteCwd(env)
    case _ => true
  }

  /** Every caller's current directory has an absolute path. */
  ghost predicate AbsoluteRun(ops: seq<Op>) {
    forall k :: 0 <= k < |ops| ==> AbsoluteOp(ops[k])
  }

  /** Registered paths are absolute, hence not empty, and pairwise distinct. */
  ghost predicate WellRegistered(reg: seq<Entry>) {
    && (forall i :: 0 <= i < |reg| ==> reg[i].registered.path != [] && IsResolved(reg[i].registered.path))
    && (forall i, j :: 0 <= i < j < |reg| ==> reg[i].registered.path != reg[j].registered.path)
  }

  /** For an absolute path the search by registered path finds the entry with that path. */
  lemma FindsRegistered(env: Env, reg: seq<Entry>, path: string)
    requires path != [] && IsResolved(path)
    ensures var r := FindByRegisteredPath(env, reg, Some(path));
            && (r.Some? ==> reg[r.value].registered.path == path)
            && (r.None? ==> forall i :: 0 <= i < |reg| ==> reg[i].registered.path != path)
  {
  }

  lemma StepWellRegistered(cfg: Config, inst: Instance, op: Op)
    requires WellRegistered(inst.registry) && AbsoluteOp(op)
    ensures WellRegistered(Step(cfg, inst, op).registry)
  {
    if op.Add? && ResultOf(cfg, inst, op) == 0 {
      var r := ResolvePath(op.env, Some(op.path), IGNORE_ABSOLUTE);
      ResolveTwice(op.env, op.env, Some(op.path));
      FindsRegistered(op.env, inst.registry, r.value);
    }
  }

  lemma {:induction false} RegistryWellFormed(cfg: Config, ops: seq<Op>)
    requires AbsoluteRun(ops)
    ensures WellRegistered(After(cfg, ops).registry)
  {
    if ops != [] {
      RegistryWellFormed(cfg, ops[..|ops| - 1]);
      StepWellRegistered(cfg, After(cfg, ops[..|ops| - 1]), ops[|ops| - 1]);
    }
  }

  /** Re-resolving a registered path, by any caller, gives it back. */
  lemma RegisteredPathsAreFixed(cfg: Config, ops: seq<Op>, i: nat, env: Env)
    requires AbsoluteRun(ops) && i < |After(cfg, ops).registry|
    ensures var path := After(cfg, ops).registry[i].registered.path;
            ResolvePath(env, Some(path), IGNORE_ABSOLUTE) == Some(path)
  {
    RegistryWellFormed(cfg, ops);
    ResolveFixpoint(env, After(cfg, ops).registry[i].registered.path);
  }

  /** No entry ever stores the "no inode" marker, whatever the current directories are. */
  lemma {:induction false} NoMarkerStored(cfg: Config, ops: seq<Op>)
    ensures NoMarkers(After(cfg, ops).registry)
  {
    if ops != [] {
      NoMarkerStored(cfg, ops[..|ops| - 1]);
    }
  }

  // ----- the registry is the surviving adds

  /** A successful operation takes the entry out of the registry. */
  predicate Erases(op: Op, e: Entry) {
    match op
    case Rm(_, env, path, _) => ResolvePath(env, Some(path), IGNORE_ABSOLUTE) == Some(e.registered.path)
    case Flush(_, _) => true
    case _ => false
  }

  /** The k-th operation is a successful add that nothing later took back. */
  ghost predicate Survives(cfg: Config, ops: seq<Op>, k: nat)
    requires k < |ops|
  {
    && ops[k].Add? && ResultAt(cfg, ops, k) == 0
    && var e := NewEntry(ops[k].env, ops[k].path);
       e.Some? && forall j :: k < j < |ops| && ResultAt(cfg, ops, j) == 0 ==> !Erases(ops[j], e.value)
  }

  /** The entries of the surviving adds among the first n operations, in order. */
  ghost function Surviving(cfg: Config, ops: seq<Op>, n: nat): seq<Entry>
    requires n <= |ops|
  {
    if n == 0 then []
    else if Survives(cfg, ops, n - 1) then
      Surviving(cfg, ops, n - 1) + [NewEntry(ops[n - 1].env, ops[n - 1].path).value]
    else Surviving(cfg, ops, n - 1)
  }

  lemma ResultPrefix(cfg: Config, ops: seq<Op>, op: Op, k: nat)
    requires k < |ops|
    ensures ResultAt(cfg, ops + [op], k) == ResultAt(cfg, ops, k)
  {
    assert (ops + [op])[..k] == ops[..k];
  }

  /** The last operation's effect on what survives. */
  lemma SurvivesSnoc(cfg: Config, ops: seq<Op>, op: Op, k: nat)
    requires k < |ops|
    ensures Survives(cfg, ops + [op], k)
       <==> && Survives(cfg, ops, k)
            && !(ResultAt(cfg, ops + [op], |ops|) == 0 && Erases(op, NewEntry(ops[k].env, ops[k].path).value))
  {
    var ops' := ops + [op];
    forall j | 0 <= j < |ops|
      ensures ResultAt(cfg, ops', j) == ResultAt(cfg, ops, j) && ops'[j] == ops[j]
    {
      ResultPrefix(cfg, ops, op, j);
    }
    assert ops'[|ops|] == op;
  }

  /** The entries of s with another registered path. */
  function Other(s: seq<Entry>, path: string): seq<Entry> {
    if s == [] then [] else
      var front := Other(s[..|s| - 1], path);
      if s[|s| - 1].registered.path == path then front else front + [s[|s| - 1]]
  }

  lemma OtherSnoc(s: seq<Entry>, e: Entry, path: string)
    ensures Other(s + [e], path) == if e.registered.path == path then Other(s, path) else Other(s, path) + [e]
  {
    assert (s + [e])[..|s|] == s;
  }

  lemma {:induction false} OtherKeepsAll(s: seq<Entry>, path: string)
    requires forall i :: 0 <= i < |s| ==> s[i].registered.path != path
    ensures Other(s, path) == s
  {
    if s != [] {
      OtherKeepsAll(s[..|s| - 1], path);
    }
  }

  /** With distinct paths, dropping the entry with a path is dropping it by position. */
  lemma {:induction false} OtherIsWithout(s: seq<Entry>, k: nat)
    requires k < |s|
    requires forall i :: 0 <= i < |s| && i != k ==> s[i].registered.path != s[k].registered.path
    ensures Other(s, s[k].registered.path) == Without(s, k)
  {
    var last := |s| - 1;
    if k == last {
      OtherKeepsAll(s[..last], s[k].registered.path);
    } else {
      assert s[..last][k] == s[k];
      OtherIsWithout(s[..last], k);
      assert Without(s, k) == Without(s[..last], k) + [s[last]];
    }
  }

  lemma SameSurvivors(cfg: Config, ops: seq<Op>, ops': seq<Op>, n: nat)
    requires n < |ops| && n < |ops'| && ops[n] == ops'[n]
    requires Surviving(cfg, ops, n) == Surviving(cfg, ops', n) && (Survives(cfg, ops, n) <==> Survives(cfg, ops', n))
    ensures Surviving(cfg, ops, n + 1) == Surviving(cfg, ops', n + 1)
  {
  }

  lemma {:induction false} SurvivingKept(cfg: Config, ops: seq<Op>, op: Op, n: nat)
    requires n <= |ops|
    requires ResultAt(cfg, ops + [op], |ops|) != 0 || op.SetState? || op.Add?
    ensures Surviving(cfg, ops + [op], n) == Surviving(cfg, ops, n)
  {
    if n > 0 {
      SurvivingKept(cfg, ops, op, n - 1);
      assert Survives(cfg, ops + [op], n - 1) <==> Survives(cfg, ops, n - 1) by {
        SurvivesSnoc(cfg, ops, op, n - 1);
      }
      SameSurvivors(cfg, ops + [op], ops, n - 1);
    }
  }

  lemma {:induction false} SurvivingFlushed(cfg: Config, ops: seq<Op>, op: Op, n: nat)
    requires n <= |ops| && op.Flush? && ResultAt(cfg, ops + [op], |ops|) == 0
    ensures Surviving(cfg, ops + [op], n) == []
  {
    if n > 0 {
      SurvivingFlushed(cfg, ops, op, n - 1);
      SurvivesSnoc(cfg, ops, op, n - 1);
    }
  }

  lemma {:induction false} SurvivingRemoved(cfg: Config, ops: seq<Op>, op: Op, n: nat, target: string)
    requires n <= |ops| && op.Rm? && ResultAt(cfg, ops + [op], |ops|) == 0
    requires ResolvePath(op.env, Some(op.path), IGNORE_ABSOLUTE) == Some(target)
    ensures Surviving(cfg, ops + [op], n) == Other(Surviving(cfg, ops, n), target)
  {
    if n > 0 {
      SurvivingRemoved(cfg, ops, op, n - 1, target);
      SurvivesSnoc(cfg, ops, op, n - 1);
      if Survives(cfg, ops, n - 1) {
        OtherSnoc(Surviving(cfg, ops, n - 1), NewEntry(ops[n - 1].env, ops[n - 1].path).value, target);
      }
    }
  }

  /** The registry is exactly the successful adds, in order, that were not later removed or flushed. */
  lemma {:induction false} RegistryIsSurvivingAdds(cfg: Config, ops: seq<Op>)
    requires AbsoluteRun(ops)
    ensures After(cfg, ops).registry == Surviving(cfg, ops, |ops|)
  {
    if ops != [] {
      var last := |ops| - 1;
      var before, op := ops[..last], ops[last];
      var inst := After(cfg, before);
      RegistryIsSurvivingAdds(cfg, before);
      RegistryWellFormed(cfg, before);
      assert ops == before + [op];
      if ResultAt(cfg, ops, last) != 0 || op.SetState? || op.Add? {
        SurvivingKept(cfg, before, op, last);
      } else if op.Flush? {
        SurvivingFlushed(cfg, before, op, last);
      } else {
        RemovalStep(cfg, inst, op);
        var target := ResolvePath(op.env, Some(op.path), IGNORE_ABSOLUTE).value;
        SurvivingRemoved(cfg, before, op, last, target);
      }
    }
  }

  lemma RemovalStep(cfg: Config, inst: Instance, op: Op)
    requires op.Rm? && AbsoluteOp(op) && WellRegistered(inst.registry) && ResultOf(cfg, inst, op) == 0
    ensures ResolvePath(op.env, Some(op.path), IGNORE_ABSOLUTE).Some?
    ensures var target := ResolvePath(op.env, Some(op.path), IGNORE_ABSOLUTE).value;
            Step(cfg, inst, op).registry == Other(inst.registry, target)
  {
    var r := ResolvePath(op.env, Some(op.path), IGNORE_ABSOLUTE);
    ResolveTwice(op.env, op.env, Some(op.path));
    FindsRegistered(op.env, inst.registry, r.value);
    OtherIsWithout(inst.registry, RmTarget(op.env, inst.registry, op.path).value);
  }

  // ----- add and remove undo each other

  /** The path under which a successful add registers its entry. */
  function RegisteredPath(add: Op): (r: string)
    requires add.Add? && NewEntry(add.env, add.path).Some?
    ensures r != []
  {
    NewEntry(add.env, add.path).value.registered.path
  }

  /** What the search for a registered path looks for: the path made absolute once more. */
  lemma SearchedPath(env: Env, reg: seq<Entry>, path: string)
    requires path != []
    ensures var looked := ResolvePath(env, Some(path), IGNORE_ABSOLUTE);
            var r := FindByRegisteredPath(env, reg, Some(path));
            && (r.Some? ==> looked == Some(reg[r.value].registered.path))
            && (r.Some? ==> forall i :: 0 <= i < r.value ==> looked != Some(reg[i].registered.path))
            && (r.None? ==> forall i :: 0 <= i < |reg| ==> looked != Some(reg[i].registered.path))
  {
  }

  /** Some entry is registered under the path. */
  ghost predicate Holds(reg: seq<Entry>, path: Option<string>) {
    exists i :: 0 <= i < |reg| && Some(reg[i].registered.path) == path
  }

  /**
   Adding the same path again is refused exactly when it was registered under an absolute path,
   or when the doubly resolved path is another registered one.
   */
  lemma SecondAddRefused(cfg: Config, inst: Instance, add: Op)
    requires add.Add? && ResultOf(cfg, inst, add) == 0
    ensures ResultOf(cfg, Step(cfg, inst, add), add) == 0 || ResultOf(cfg, Step(cfg, inst, add), add) == -EEXIST
    ensures ResultOf(cfg, Step(cfg, inst, add), add) == -EEXIST
       <==> || IsResolved(RegisteredPath(add))
            || Holds(inst.registry, ResolvePath(add.env, Some(RegisteredPath(add)), IGNORE_ABSOLUTE))
  {
    var reg, reg' := inst.registry, Step(cfg, inst, add).registry;
    var path := RegisteredPath(add);
    SearchedPath(add.env, reg', path);
    ResolveFixpoint(add.env, path);
    assert reg'[|reg|].registered.path == path;
    assert forall i :: 0 <= i < |reg| ==> reg'[i] == reg[i];
  }

  /** A run of set_state and two equal adds, all successful, after which a path is registered twice. */
  ghost predicate RegistersTwice(cfg: Config, ops: seq<Op>) {
    && |ops| == 3 && ops[1].Add? && ops[1] == ops[2]
    && ResultAt(cfg, ops, 0) == 0 && ResultAt(cfg, ops, 1) == 0 && ResultAt(cfg, ops, 2) == 0
    && !WellRegistered(After(cfg, ops).registry)
  }

  /**
   AbsoluteRun is what d_path gives for every current directory. Distinctness rests on it: were
   it not so, a path could be registered twice.
   */
  lemma DuplicateWithRelativeCwd(cfg: Config)
    requires cfg.password == Hex(cfg.digest(DEFAULT_PASSWORD))
    ensures exists ops :: RegistersTwice(cfg, ops)
  {
    var env := Env(Some("gone"), p => Some("/gone/f"), p => Some(7), p => 0);
    var add := Add(0, env, "f", DEFAULT_PASSWORD);
    RelativeRun(cfg, add);
    assert RegistersTwice(cfg, [SetState(0, "REC-OFF"), add, add]);
  }

  lemma RelativeRun(cfg: Config, add: Op)
    requires cfg.password == Hex(cfg.digest(DEFAULT_PASSWORD))
    requires add.Add? && add.euid == 0 && add.path == "f" && add.password == DEFAULT_PASSWORD
    requires add.env.cwd == Some("gone") && add.env.follow("f") == Some("/gone/f")
    requires add.env.inode("f") == Some(7) && add.env.inode("/gone/f") == Some(7)
    ensures RegistersTwice(cfg, [SetState(0, "REC-OFF"), add, add])
  {
    var ops := [SetState(0, "REC-OFF"), add, add];
    ThreeSteps(cfg, ops);
    SetStateExact(cfg, INITIAL, "REC-OFF", REC_OFF);
    AddRelativeTwice(cfg, Step(cfg, INITIAL, ops[0]), add);
  }

  lemma ThreeSteps(cfg: Config, ops: seq<Op>)
    requires |ops| == 3
    ensures var i1 := Step(cfg, INITIAL, ops[0]);
            var i2 := Step(cfg, i1, ops[1]);
            && After(cfg, ops) == Step(cfg, i2, ops[2])
            && ResultAt(cfg, ops, 0) == ResultOf(cfg, INITIAL, ops[0])
            && ResultAt(cfg, ops, 1) == ResultOf(cfg, i1, ops[1])
            && ResultAt(cfg, ops, 2) == ResultOf(cfg, i2, ops[2])
  {
    assert ops[..2][..1] == ops[..1] && ops[..1][..0] == [] == ops[..0];
    assert After(cfg, ops[..1]) == Step(cfg, After(cfg, []), ops[0]);
    assert After(cfg, ops[..2]) == Step(cfg, After(cfg, ops[..1]), ops[1]);
  }

  lemma AddRelativeTwice(cfg: Config, inst: Instance, add: Op)
    requires cfg.password == Hex(cfg.digest(DEFAULT_PASSWORD)) && inst.state == REC_OFF && inst.registry == []
    requires add.Add? && add.euid == 0 && add.path == "f" && add.password == DEFAULT_PASSWORD
    requires add.env.cwd == Some("gone") && add.env.follow("f") == Some("/gone/f")
    requires add.env.inode("f") == Some(7) && add.env.inode("/gone/f") == Some(7)
    ensures ResultOf(cfg, inst, add) == 0 && ResultOf(cfg, Step(cfg, inst, add), add) == 0
    ensures !WellRegistered(Step(cfg, Step(cfg, inst, add), add).registry)
  {
    AllChecksPass(cfg, REC_OFF, 0, DEFAULT_PASSWORD, DEFAULT_PASSWORD);
    assert NewEntry(add.env, "f").value.registered.path == "gone" + "/" + "f";
    SecondAddRefused(cfg, inst, add);
    var twice := Step(cfg, Step(cfg, inst, add), add).registry;
    assert twice[0].registered.path == twice[1].registered.path;
  }

  /**
   Removing the path that was just added restores the state exactly when it was registered
   under an absolute path; then removing it once more gives -ENOENT.
   */
  lemma RemoveUndoesAdd(cfg: Config, inst: Instance, add: Op)
    requires add.Add? && ResultOf(cfg, inst, add) == 0
    ensures var rm := Rm(add.euid, add.env, add.path, add.password);
            var added := Step(cfg, inst, add);
            && (Step(cfg, added, rm) == inst <==> IsResolved(RegisteredPath(add)))
            && (IsResolved(RegisteredPath(add)) ==> ResultOf(cfg, added, rm) == 0 && ResultOf(cfg, inst, rm) == -ENOENT)
  {
    var reg, reg' := inst.registry, Step(cfg, inst, add).registry;
    var path := RegisteredPath(add);
    SearchedPath(add.env, reg, path);
    SearchedPath(add.env, reg', path);
    ResolveFixpoint(add.env, path);
    assert reg'[|reg|].registered.path == path;
    assert forall i :: 0 <= i < |reg| ==> reg'[i] == reg[i];
    var r := RmTarget(add.env, reg', add.path);
    if IsResolved(path) {
      assert Without(reg', |reg|) == reg;
    } else if r.Some? {
      WithoutOther(reg, NewEntry(add.env, add.path).value, r.value);
    }
  }

  /** Taking out an entry with another path does not undo the addition of e. */
  lemma WithoutOther(reg: seq<Entry>, e: Entry, k: nat)
    requires k < |reg| && reg[k].registered.path != e.registered.path
    ensures Without(reg + [e], k) != reg
  {
    var s := Without(reg + [e], k);
    if s == reg {
      var i := k;
      while i < |reg|
        invariant k <= i <= |reg|
        invariant i < |reg| ==> reg[i] == reg[k]
        invariant i == |reg| ==> e == reg[k]
      {
        assert s[i] == (reg + [e])[i + 1];
        i := i + 1;
      }
    }
  }
}
