/**
 The reference monitor: its states (model/state.c, model/instance.c), the checks that guard
 every operation (syscalls/safety.c), the four operations (syscalls/syscalls-handlers.c) and
 the five probes they switch (probing/probing.c).
 */
module Monitor {
  import opened Digests
  import opened Errno
  import opened KernelList
  import opened Paths
  import opened Registry
  import opened Wrappers

  const DEFAULT_PASSWORD: string := "ciao"

  // ----- states and their names

  datatype RefmonState = OFF | ON | REC_OFF | REC_ON

  /** string_to_state, with None for -EINVAL */
  function StringToState(name: string): Option<RefmonState> {
    if name == "OFF" then Some(OFF)
    else if name == "ON" then Some(ON)
    else if name == "REC-OFF" then Some(REC_OFF)
    else if name == "REC-ON" then Some(REC_ON)
    else None
  }

  function StateToString(s: RefmonState): string {
    match s
    case OFF => "OFF"
    case ON => "ON"
    case REC_OFF => "REC-OFF"
    case REC_ON => "REC-ON"
  }

  predicate IsStateValid(name: string) {
    name == "OFF" || name == "ON" || name == "REC-OFF" || name == "REC-ON"
  }

  lemma StateNamesRoundTrip(s: RefmonState, name: string)
    ensures StringToState(StateToString(s)) == Some(s)
    ensures IsStateValid(name) <==> StringToState(name).Some?
    ensures StringToState(name) == Some(s) <==> name == StateToString(s)
  {
    assert "OFF"[1] == 'F' && "ON"[1] == 'N';
    assert |"REC-OFF"| == 7 && |"REC-ON"| == 6;
  }

  predicate IsOff(s: RefmonState) {
    s == OFF || s == REC_OFF
  }

  predicate IsOn(s: RefmonState) {
    !IsOff(s)
  }

  predicate IsReconf(s: RefmonState) {
    s == REC_OFF || s == REC_ON
  }

  /** The names say what a state does: it is on when they end in ON, and reconfigurable when they begin with REC-. */
  lemma StateNamesSay(s: RefmonState)
    ensures var name := StateToString(s);
            && |name| >= 2 && (IsOn(s) <==> name[|name| - 2..] == "ON")
            && (IsReconf(s) <==> "REC-" <= name)
            && (name == "OFF" || name == "ON" || name == "REC-OFF" || name == "REC-ON")
  {
    assert "OFF"[1..] == "FF" && "REC-OFF"[5..] == "FF" && "FF"[0] != "ON"[0];
    assert "ON"[0..] == "ON" && "REC-ON"[4..] == "ON";
    assert "REC-OFF"[..4] == "REC-" && "REC-ON"[..4] == "REC-";
    assert "OFF"[0] == 'O' && "ON"[0] == 'O';
  }

  // ----- abstract state

  datatype Probes = Probes(vfsOpen: bool, filpOpen: bool, mayDelete: bool, mkdir: bool, rmdir: bool)

  function AllProbes(on: bool): Probes {
    Probes(on, on, on, on, on)
  }

  datatype Instance = Instance(state: RefmonState, registry: seq<Entry>, probes: Probes)

  /** init_instance, with the probes registered as disabled */
  const INITIAL := Instance(OFF, [], AllProbes(false))

  /** The digest function and the text of the password's digest. */
  datatype Config = Config(digest: string -> seq<u8>, password: string)

  /** Which checks a caller asks for; REFMON_SAFETY_CHECK_NONE is 0, so its branch is never taken. */
  datatype Checks = Checks(root: bool, reconf: bool, password: bool)

  const ROOT_ONLY := Checks(true, false, false)
  const ALL_CHECKS := Checks(true, true, true)

  /** The first check that fails decides the result. */
  function SafetyResult(cfg: Config, s: RefmonState, checks: Checks, euid: nat, arg: string): int {
    if checks.root && euid != 0 then -EACCES
    else if checks.reconf && !IsReconf(s) then -EPERM
    else if checks.password && arg == [] then -EINVAL
    else if checks.password && Hex(cfg.digest(arg)) != cfg.password then -EACCES
    else if !checks.root && !checks.reconf && !checks.password then -ENOTRECOVERABLE
    else 0
  }

  /** The requested checks up to the state of the monitor pass. */
  predicate CallerFine(s: RefmonState, checks: Checks, euid: nat) {
    (checks.root ==> euid == 0) && (checks.reconf ==> s == REC_OFF || s == REC_ON)
  }

  /** For any requested checks, each result and when it is given; the password was set from a secret. */
  lemma SafetyExact(cfg: Config, s: RefmonState, checks: Checks, euid: nat, arg: string, secret: string)
    requires cfg.password == Hex(cfg.digest(secret))
    ensures var r, same := SafetyResult(cfg, s, checks, euid, arg), cfg.digest(arg) == cfg.digest(secret);
            && (r == 0 <==> && (checks.root || checks.reconf || checks.password)
                            && CallerFine(s, checks, euid) && (checks.password ==> arg != [] && same))
            && (r == -EACCES <==> || (checks.root && euid != 0)
                                  || (CallerFine(s, checks, euid) && checks.password && arg != [] && !same))
            && (r == -EPERM <==> (checks.root ==> euid == 0) && checks.reconf && (s == OFF || s == ON))
            && (r == -EINVAL <==> CallerFine(s, checks, euid) && checks.password && arg == [])
            && (r == -ENOTRECOVERABLE <==> !checks.root && !checks.reconf && !checks.password)
  {
    HexInjective(cfg.digest(arg), cfg.digest(secret));
  }

  /** With a password set from a secret, all checks pass exactly for root, in a REC state, with the secret's digest. */
  lemma AllChecksPass(cfg: Config, s: RefmonState, euid: nat, arg: string, secret: string)
    requires cfg.password == Hex(cfg.digest(secret))
    ensures SafetyResult(cfg, s, ALL_CHECKS, euid, arg) == 0
       <==> euid == 0 && (s == REC_OFF || s == REC_ON) && arg != [] && cfg.digest(arg) == cfg.digest(secret)
  {
    HexInjective(cfg.digest(arg), cfg.digest(secret));
  }

  /** The entry that adding the path would register, or None when it cannot be resolved or has no inode. */
  function NewEntry(env: Env, path: string): Option<Entry> {
    var registered := ResolvePath(env, Some(path), IGNORE_ABSOLUTE);
    var resolved := ResolvePath(env, Some(path), RESOLVE_AND_IGNORE);
    if registered.None? || resolved.None? then None
    else if InodeOf(env, path) == NO_INO || InodeOf(env, resolved.value) == NO_INO then None
    else Some(Entry(PathId(registered.value, InodeOf(env, path)), PathId(resolved.value, InodeOf(env, resolved.value))))
  }

  /**
   What a successful add of an absolute path registers: the path itself, with its own inode
   number, on both sides.
   */
  lemma NewEntryOfAbsolute(env: Env, path: string, e: Entry)
    requires path != [] && path[0] == '/'
    ensures NewEntry(env, path) == Some(e)
       <==> && e.registered == e.resolved && e.registered.path == path
            && env.inode(path) == Some(e.registered.ino) && e.registered.ino != NO_INO
  {
  }

  /**
   What a successful add of a relative path registers: the path below the caller's directory
   with the inode number that the path has, and the path that it leads to with the inode number there.
   */
  lemma NewEntryOfRelative(env: Env, path: string, e: Entry)
    requires path != [] && path[0] != '/'
    ensures NewEntry(env, path) == Some(e)
       <==> && env.cwd.Some? && e.registered.path == env.cwd.value + "/" + path && |e.registered.path| < 4096
            && env.inode(path) == Some(e.registered.ino) && e.registered.ino != NO_INO
            && env.follow(path) == Some(e.resolved.path)
            && env.inode(e.resolved.path) == Some(e.resolved.ino) && e.resolved.ino != NO_INO
  {
  }

  predicate IsRegistered(env: Env, reg: seq<Entry>, path: string) {
    FindByRegisteredPath(env, reg, ResolvePath(env, Some(path), IGNORE_ABSOLUTE)).Some?
  }

  /** Result of _add_file: an already registered path is reported before any other failure but its own resolution. */
  function AddResult(env: Env, reg: seq<Entry>, path: string): int {
    if IsRegistered(env, reg, path) then -EEXIST
    else if NewEntry(env, path).None? then -EINVAL
    else 0
  }

  datatype Op =
    | SetState(euid: nat, name: string)
    | Add(euid: nat, env: Env, path: string, password: string)
    | Rm(euid: nat, env: Env, path: string, password: string)
    | Flush(euid: nat, password: string)

  function RmTarget(env: Env, reg: seq<Entry>, path: string): (r: Option<nat>)
    ensures r.Some? ==> r.value < |reg|
  {
    FindByRegisteredPath(env, reg, ResolvePath(env, Some(path), IGNORE_ABSOLUTE))
  }

  /** Result code of an operation in a given state. */
  function ResultOf(cfg: Config, inst: Instance, op: Op): int {
    match op
    case SetState(euid, name) =>
      var safe := SafetyResult(cfg, inst.state, ROOT_ONLY, euid, []);
      if safe != 0 then safe else if !IsStateValid(name) then -EINVAL else 0
    case Add(euid, env, path, password) =>
      var safe := SafetyResult(cfg, inst.state, ALL_CHECKS, euid, password);
      if safe != 0 then safe else if path == [] then -EINVAL else AddResult(env, inst.registry, path)
    case Rm(euid, env, path, password) =>
      var safe := SafetyResult(cfg, inst.state, ALL_CHECKS, euid, password);
      if safe != 0 then safe else if path == [] then -EINVAL
      else if RmTarget(env, inst.registry, path).None? then -ENOENT else 0
    case Flush(euid, password) => SafetyResult(cfg, inst.state, ALL_CHECKS, euid, password)
  }

  /** State after an operation: only a zero result changes anything. */
  function Step(cfg: Config, inst: Instance, op: Op): Instance {
    if ResultOf(cfg, inst, op) != 0 then inst else
      match op
      case SetState(_, name) =>
        var s := StringToState(name).value;
        inst.(state := s, probes := AllProbes(IsOn(s)))
      case Add(_, env, path, _) => inst.(registry := inst.registry + [NewEntry(env, path).value])
      case Rm(_, env, path, _) => inst.(registry := Without(inst.registry, RmTarget(env, inst.registry, path).value))
      case Flush(_, _) => inst.(registry := [])
  }

  // ----- the running monitor

  class RefMonitor {
    const cfg: Config
    var state: RefmonState
    const registry: List<Entry>
    var vfsOpen: bool
    var filpOpen: bool
    var mayDelete: bool
    var mkdir: bool
    var rmdir: bool

    ghost predicate Valid()
      reads this, registry, registry.Repr
    {
      this !in registry.Repr && registry.Valid()
    }

    ghost function Abstract(): Instance
      requires Valid()
      reads this, registry, registry.Repr
    {
      Instance(state, registry.Contents(), Probes(vfsOpen, filpOpen, mayDelete, mkdir, rmdir))
    }

    /** init_password, init_instance and init_probes */
    constructor (digest: string -> seq<u8>)
      ensures Valid() && fresh(registry.Repr)
      ensures cfg == Config(digest, Hex(digest(DEFAULT_PASSWORD)))
      ensures Abstract() == INITIAL
    {
      cfg := Config(digest, Hex(digest(DEFAULT_PASSWORD)));
      state := OFF;
      registry := new List();
      vfsOpen, filpOpen, mayDelete, mkdir, rmdir := false, false, false, false, false;
    }

    method ProbingOff() returns (ret: int)
      modifies this`vfsOpen, this`filpOpen, this`mayDelete, this`mkdir, this`rmdir
      ensures ret == 0 && Probes(vfsOpen, filpOpen, mayDelete, mkdir, rmdir) == AllProbes(false)
    {
      vfsOpen := false;
      filpOpen := false;
      mayDelete := false;
      mkdir := false;
      rmdir := false;
      ret := 0;
    }

    method ProbingOn() returns (ret: int)
      modifies this`vfsOpen, this`filpOpen, this`mayDelete, this`mkdir, this`rmdir
      ensures ret == 0 && Probes(vfsOpen, filpOpen, mayDelete, mkdir, rmdir) == AllProbes(true)
    {
      vfsOpen := true;
      filpOpen := true;
      mayDelete := true;
      mkdir := true;
      rmdir := true;
      ret := 0;
    }

    method ProbingUpdate(desired: bool) returns (ret: int)
      modifies this`vfsOpen, this`filpOpen, this`mayDelete, this`mkdir, this`rmdir
      ensures ret == 0 && Probes(vfsOpen, filpOpen, mayDelete, mkdir, rmdir) == AllProbes(desired)
    {
      if desired {
        ret := ProbingOn();
      } else {
        ret := ProbingOff();
      }
    }

    /** safety_checks */
    method SafetyChecks(checks: Checks, euid: nat, arg: string) returns (ret: int)
      ensures ret == SafetyResult(cfg, state, checks, euid, arg)
    {
      var caught := 0;
      if checks.root {
        caught := caught + 1;
        if euid != 0 {
          return -EACCES;
        }
      }
      if checks.reconf {
        caught := caught + 1;
        if !IsReconf(state) {
          return -EPERM;
        }
      }
      if checks.password {
        caught := caught + 1;
        if arg == [] {
          return -EINVAL;
        }
        var text := HashString(cfg.digest, arg);
        if text != cfg.password {
          return -EACCES;
        }
      }
      if caught == 0 {
        return -ENOTRECOVERABLE;
      }
      return 0;
    }

    /** search_entry: the node found on the ring, which is the one at position k. */
    method Search(env: Env, id: PathId, criteria: Criteria) returns (found: ListHead?<Entry>, ghost k: nat)
      requires Valid()
      ensures found != null <==> SearchEntry(env, registry.Contents(), id, criteria).Some?
      ensures found != null ==>
                && k == SearchEntry(env, registry.Contents(), id, criteria).value + 1
                && registry.ring[k] == found
    {
      ghost var reg := registry.Contents();
      k := 0;
      var empty := registry.IsEmpty();
      if empty {
        return null, k;
      }
      if id.path == [] && NeedsPath(criteria) {
        return null, k;
      }
      found, k := registry.Find(e => Matches(env, id, criteria, e));
      ghost var r := FirstMatch(env, reg, id, criteria, 0);
      if found != null && r.Some? {
        assert !(r.value < k - 1) && !(k - 1 < r.value);
      }
    }

    /** find_entry_by_regpath_alloc */
    method FindEntry(env: Env, path: Option<string>) returns (found: ListHead?<Entry>, ghost k: nat)
      requires Valid()
      ensures found != null <==> FindByRegisteredPath(env, registry.Contents(), path).Some?
      ensures found != null ==>
                && k == FindByRegisteredPath(env, registry.Contents(), path).value + 1
                && registry.ring[k] == found
    {
      k := 0;
      var solved := ResolvePath(env, path, IGNORE_ABSOLUTE);
      if solved.None? {
        return null, k;
      }
      found, k := Search(env, PathId(solved.value, NO_INO), BY_REGISTERED_PATH);
    }

    /** do_set_state */
    method DoSetState(euid: nat, name: string) returns (ret: int)
      requires Valid()
      modifies this
      ensures Valid()
      ensures ret == ResultOf(cfg, old(Abstract()), SetState(euid, name))
      ensures Abstract() == Step(cfg, old(Abstract()), SetState(euid, name))
    {
      StateNamesRoundTrip(OFF, name);
      ret := SafetyChecks(ROOT_ONLY, euid, []);
      if ret != 0 {
        return;
      }
      if !IsStateValid(name) {
        return -EINVAL;
      }
      state := StringToState(name).value;
      ret := ProbingUpdate(IsOn(state));
    }

    /** _add_file */
    method AddFile(env: Env, path: string) returns (ret: int)
      requires Valid() && path != []
      modifies registry.Repr
      ensures Valid() && fresh(registry.Repr - old(registry.Repr))
      ensures ret == AddResult(env, old(registry.Contents()), path)
      ensures registry.Contents() == if ret == 0 then old(registry.Contents()) + [NewEntry(env, path).value]
                                     else old(registry.Contents())
    {
      var registered := ResolvePath(env, Some(path), IGNORE_ABSOLUTE);
      if registered.None? {
        return -EINVAL;
      }
      var found, k := FindEntry(env, registered);
      if found != null {
        return -EEXIST;
      }
      var resolved := ResolvePath(env, Some(path), RESOLVE_AND_IGNORE);
      if resolved.None? {
        return -EINVAL;
      }
      var inoRegistered := InodeOf(env, path);
      if inoRegistered == NO_INO {
        return -EINVAL;
      }
      var inoResolved := InodeOf(env, resolved.value);
      if inoResolved == NO_INO {
        return -EINVAL;
      }
      registry.AddTail(Entry(PathId(registered.value, inoRegistered), PathId(resolved.value, inoResolved)));
      return 0;
    }

    /** do_reconf_add */
    method DoReconfAdd(euid: nat, env: Env, path: string, password: string) returns (ret: int)
      requires Valid()
      modifies registry.Repr
      ensures Valid() && fresh(registry.Repr - old(registry.Repr))
      ensures ret == ResultOf(cfg, old(Abstract()), Add(euid, env, path, password))
      ensures Abstract() == Step(cfg, old(Abstract()), Add(euid, env, path, password))
    {
      ret := SafetyChecks(ALL_CHECKS, euid, password);
      if ret != 0 {
        return;
      }
      if path == [] {
        return -EINVAL;
      }
      ret := AddFile(env, path);
    }

    /** do_reconf_rm */
    method DoReconfRm(euid: nat, env: Env, path: string, password: string) returns (ret: int)
      requires Valid()
      modifies registry.Repr
      ensures Valid() && fresh(registry.Repr - old(registry.Repr))
      ensures ret == ResultOf(cfg, old(Abstract()), Rm(euid, env, path, password))
      ensures Abstract() == Step(cfg, old(Abstract()), Rm(euid, env, path, password))
    {
      ret := SafetyChecks(ALL_CHECKS, euid, password);
      if ret != 0 {
        return;
      }
      if path == [] {
        return -EINVAL;
      }
      var found, k := FindEntry(env, ResolvePath(env, Some(path), IGNORE_ABSOLUTE));
      if found == null {
        return -ENOENT;
      }
      registry.Delete(found, k);
      ret := 0;
    }

    /** do_flush_registry */
    method DoFlushRegistry(euid: nat, password: string) returns (ret: int)
      requires Valid()
      modifies registry.Repr
      ensures Valid() && fresh(registry.Repr - old(registry.Repr))
      ensures ret == ResultOf(cfg, old(Abstract()), Flush(euid, password))
      ensures Abstract() == Step(cfg, old(Abstract()), Flush(euid, password))
      ensures ret == 0 ==> registry.CheckListInit()
    {
      ret := SafetyChecks(ALL_CHECKS, euid, password);
      if ret != 0 {
        return;
      }
      var empty := registry.IsEmpty();
      if empty {
        registry.EmptyWhenSelfLinked();
        return 0;
      }
      ghost var visited := registry.DeleteAll();
      ret := 0;
    }

    /** Any one of the four operations. */
    method Execute(op: Op) returns (ret: int)
      requires Valid()
      modifies this, registry.Repr
      ensures Valid() && fresh(registry.Repr - old(registry.Repr))
      ensures ret == ResultOf(cfg, old(Abstract()), op)
      ensures Abstract() == Step(cfg, old(Abstract()), op)
    {
      match op {
        case SetState(euid, name) => ret := DoSetState(euid, name);
        case Add(euid, env, path, password) => ret := DoReconfAdd(euid, env, path, password);
        case Rm(euid, env, path, password) => ret := DoReconfRm(euid, env, path, password);
        case Flush(euid, password) => ret := DoFlushRegistry(euid, password);
      }
    }
  }
}
