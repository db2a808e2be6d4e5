/**
 What each operation of the monitor answers and does, said from the caller's side, and what
 follows for whole runs: who switches the monitor, and that refused calls leave no trace.
 */
module MonitorResults {
  import opened Digests
  import opened Errno
  import opened Monitor
  import opened MonitorRuns
  import opened Paths
  import opened Registry
  import opened Wrappers

  // ----- set_state

  predicate StateName(name: string) {
    name == "OFF" || name == "ON" || name == "REC-OFF" || name == "REC-ON"
  }

  /** Only root may switch, and only to one of the four names; then the monitor has that name's state. */
  lemma SetStateResults(cfg: Config, inst: Instance, euid: nat, name: string)
    ensures var r, next := ResultOf(cfg, inst, SetState(euid, name)), Step(cfg, inst, SetState(euid, name));
            && (r == -EACCES <==> euid != 0)
            && (r == -EINVAL <==> euid == 0 && !StateName(name))
            && (r == 0 <==> euid == 0 && StateName(name))
            && (r == 0 ==> StateToString(next.state) == name && next.registry == inst.registry)
            && (r == 0 ==> next.probes == AllProbes(name == "ON" || name == "REC-ON"))
            && (r != 0 ==> next == inst)
  {
    StateNamesRoundTrip(inst.state, name);
    if StateName(name) {
      StateNamesRoundTrip(StringToState(name).value, name);
    }
  }

  /** Whatever changes the state or a probe is a set_state by root that succeeds. */
  lemma OnlyRootSwitches(cfg: Config, inst: Instance, op: Op)
    requires Step(cfg, inst, op).state != inst.state || Step(cfg, inst, op).probes != inst.probes
    ensures op.SetState? && op.euid == 0 && StateName(op.name) && ResultOf(cfg, inst, op) == 0
  {
    if op.SetState? {
      SetStateResults(cfg, inst, op.euid, op.name);
    }
  }

  /** The last of the four names that root has asked for; the monitor starts with OFF. */
  function LastName(ops: seq<Op>): (name: string)
    ensures StateName(name)
  {
    if ops == [] then "OFF"
    else match ops[|ops| - 1]
      case SetState(euid, name) => if euid == 0 && StateName(name) then name else LastName(ops[..|ops| - 1])
      case _ => LastName(ops[..|ops| - 1])
  }

  /**
   After any run the state is the one that root asked for last, and the probes are those of that
   state, whatever else was called, by whom and with which passwords, paths and results.
   */
  lemma {:induction false} StateIsLastName(cfg: Config, ops: seq<Op>)
    ensures StateToString(After(cfg, ops).state) == LastName(ops)
    ensures After(cfg, ops).probes == AllProbes(LastName(ops) == "ON" || LastName(ops) == "REC-ON")
  {
    if ops != [] {
      var last := |ops| - 1;
      var inst, op := After(cfg, ops[..last]), ops[last];
      StateIsLastName(cfg, ops[..last]);
      if op.SetState? {
        SetStateResults(cfg, inst, op.euid, op.name);
      } else {
        assert Step(cfg, inst, op).state == inst.state && Step(cfg, inst, op).probes == inst.probes;
      }
    }
  }

  // ----- the operations on the registry

  /** Root, a REC state, and a password with the same digest as the secret. */
  predicate Authorized(cfg: Config, s: RefmonState, op: Op, secret: string)
    requires !op.SetState?
  {
    && op.euid == 0 && (s == REC_OFF || s == REC_ON)
    && op.password != [] && cfg.digest(op.password) == cfg.digest(secret)
  }

  /** A caller who is not authorized learns why, and nothing changes. */
  lemma RefusedResults(cfg: Config, inst: Instance, op: Op, secret: string)
    requires cfg.password == Hex(cfg.digest(secret))
    requires !op.SetState? && !Authorized(cfg, inst.state, op, secret)
    ensures var r, reconf := ResultOf(cfg, inst, op), inst.state == REC_OFF || inst.state == REC_ON;
            && (r == -EPERM <==> op.euid == 0 && !reconf)
            && (r == -EINVAL <==> op.euid == 0 && reconf && op.password == [])
            && (r == -EACCES <==> op.euid != 0 || (reconf && op.password != []))
            && r != 0
    ensures Step(cfg, inst, op) == inst
  {
    SafetyExact(cfg, inst.state, ALL_CHECKS, op.euid, op.password, secret);
  }

  /** The path under which the registry is searched for a caller's path. */
  function Searched(env: Env, path: string): Option<string> {
    ResolvePath(env, ResolvePath(env, Some(path), IGNORE_ABSOLUTE), IGNORE_ABSOLUTE)
  }

  /** For an absolute path that is the path itself; for a relative one it is below the current directory. */
  lemma SearchedExact(env: Env, path: string)
    requires path != [] && AbsoluteCwd(env)
    ensures path[0] == '/' ==> Searched(env, path) == Some(path)
    ensures path[0] != '/' ==>
              Searched(env, path) == if env.cwd.Some? && |env.cwd.value| + |path| + 1 < 4096
                                     then Some(env.cwd.value + "/" + path) else None
  {
  }

  lemma SearchFinds(env: Env, reg: seq<Entry>, path: string)
    requires path != []
    ensures var r := RmTarget(env, reg, path);
            && (r.Some? <==> Holds(reg, Searched(env, path)))
            && (r.Some? ==> Some(reg[r.value].registered.path) == Searched(env, path))
            && (r.Some? ==> forall i :: 0 <= i < r.value ==> Some(reg[i].registered.path) != Searched(env, path))
  {
    var once := ResolvePath(env, Some(path), IGNORE_ABSOLUTE);
    if once.Some? {
      assert once.value != [];
      SearchedPath(env, reg, once.value);
    }
  }

  /** An authorized add: -EINVAL without a usable path, -EEXIST for a registered one, else one entry more. */
  lemma AddResults(cfg: Config, inst: Instance, op: Op, secret: string)
    requires cfg.password == Hex(cfg.digest(secret))
    requires op.Add? && Authorized(cfg, inst.state, op, secret)
    ensures var r, next := ResultOf(cfg, inst, op), Step(cfg, inst, op);
            var known := op.path != [] && Holds(inst.registry, Searched(op.env, op.path));
            && (r == -EEXIST <==> known)
            && (r == -EINVAL <==> op.path == [] || (!known && NewEntry(op.env, op.path).None?))
            && (r == 0 <==> op.path != [] && !known && NewEntry(op.env, op.path).Some?)
            && (r == 0 ==> next == inst.(registry := inst.registry + [NewEntry(op.env, op.path).value]))
            && (r != 0 ==> next == inst)
  {
    SafetyExact(cfg, inst.state, ALL_CHECKS, op.euid, op.password, secret);
    if op.path != [] {
      SearchFinds(op.env, inst.registry, op.path);
    }
  }

  /** The registry without its first entry registered under a path. */
  ghost predicate FirstRemoved(reg: seq<Entry>, path: Option<string>, reg': seq<Entry>) {
    exists k :: && 0 <= k < |reg| && Some(reg[k].registered.path) == path && reg' == reg[..k] + reg[k + 1..]
                && forall i :: 0 <= i < k ==> Some(reg[i].registered.path) != path
  }

  /** An authorized rm: -EINVAL for an empty path, -ENOENT for an unregistered one, else one entry less. */
  lemma RmResults(cfg: Config, inst: Instance, op: Op, secret: string)
    requires cfg.password == Hex(cfg.digest(secret))
    requires op.Rm? && Authorized(cfg, inst.state, op, secret)
    ensures var r, next := ResultOf(cfg, inst, op), Step(cfg, inst, op);
            var searched := Searched(op.env, op.path);
            && (r == -EINVAL <==> op.path == [])
            && (r == -ENOENT <==> op.path != [] && !Holds(inst.registry, searched))
            && (r == 0 <==> op.path != [] && Holds(inst.registry, searched))
            && (r == 0 ==> next == inst.(registry := next.registry))
            && (r == 0 ==> FirstRemoved(inst.registry, searched, next.registry))
            && (r != 0 ==> next == inst)
  {
    SafetyExact(cfg, inst.state, ALL_CHECKS, op.euid, op.password, secret);
    if op.path != [] {
      SearchFinds(op.env, inst.registry, op.path);
    }
  }

  /** An authorized flush always succeeds and empties the registry. */
  lemma FlushResults(cfg: Config, inst: Instance, op: Op, secret: string)
    requires cfg.password == Hex(cfg.digest(secret))
    requires op.Flush? && Authorized(cfg, inst.state, op, secret)
    ensures ResultOf(cfg, inst, op) == 0 && Step(cfg, inst, op) == Instance(inst.state, [], inst.probes)
  {
    SafetyExact(cfg, inst.state, ALL_CHECKS, op.euid, op.password, secret);
  }

  // ----- refused operations leave no trace

  /** The operations of a run that succeeded, in order. */
  function Succeeded(cfg: Config, ops: seq<Op>): (s: seq<Op>)
    ensures |s| <= |ops|
  {
    if ops == [] then []
    else if ResultAt(cfg, ops, |ops| - 1) == 0 then Succeeded(cfg, ops[..|ops| - 1]) + [ops[|ops| - 1]]
    else Succeeded(cfg, ops[..|ops| - 1])
  }

  /** Leaving the failed operations out of a run gives the same state, and the others still succeed. */
  lemma {:induction false} FailuresLeaveNoTrace(cfg: Config, ops: seq<Op>)
    ensures After(cfg, Succeeded(cfg, ops)) == After(cfg, ops)
    ensures forall k :: 0 <= k < |Succeeded(cfg, ops)| ==> ResultAt(cfg, Succeeded(cfg, ops), k) == 0
  {
    if ops != [] {
      var before, op := ops[..|ops| - 1], ops[|ops| - 1];
      FailuresLeaveNoTrace(cfg, before);
      var kept := Succeeded(cfg, before);
      if ResultAt(cfg, ops, |ops| - 1) == 0 {
        assert (kept + [op])[..|kept|] == kept;
        forall k | 0 <= k < |kept|
          ensures ResultAt(cfg, kept + [op], k) == 0
        {
          ResultPrefix(cfg, kept, op, k);
        }
      }
    }
  }
}
