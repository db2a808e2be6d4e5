/**
 The probe handlers that let an access go ahead or deny it (probing/probing-handlers.c), and
 what they amount to over whole runs of the monitor.
 */
module Hooks {
  import opened Digests
  import opened Monitor
  import opened MonitorResults
  import opened MonitorRuns
  import opened Paths
  import opened Registry
  import opened Wrappers

  const O_ACCMODE: int := 3
  const O_WRONLY: int := 1
  const O_RDWR: int := 2
  const O_CREAT: int := 64
  const O_TRUNC: int := 512
  const O_APPEND: int := 1024

  /** flags & O_ACCMODE, for an int of any sign */
  function AccessMode(flags: int): int {
    flags % (O_ACCMODE + 1)
  }

  /** is_write_acc */
  predicate IsWriteAccess(flags: int) {
    var mode := AccessMode(flags);
    mode == O_WRONLY || mode == O_RDWR || mode == O_CREAT || mode == O_TRUNC || mode == O_APPEND
  }

  /**
   The two lowest bits decide, being 01 for O_WRONLY and 10 for O_RDWR; creating, truncating or
   appending alone never counts as writing.
   */
  lemma WriteAccessIsMode(rest: int, low: int)
    requires 0 <= low < 4
    ensures IsWriteAccess(4 * rest + low) <==> low == 1 || low == 2
    ensures IsWriteAccess(4 * rest + low + O_CREAT) <==> low == 1 || low == 2
    ensures IsWriteAccess(4 * rest + low + O_TRUNC) <==> low == 1 || low == 2
    ensures IsWriteAccess(4 * rest + low + O_APPEND) <==> low == 1 || low == 2
  {
    assert O_CREAT == 4 * 16 && O_TRUNC == 4 * 128 && O_APPEND == 4 * 256;
  }

  /** Accesses that a probe watches; path is what extract_path_from_dentry gives. */
  datatype Access =
    | Open(viaFilpOpen: bool, flags: int, path: Option<string>)
    | Delete(path: Option<string>)
    | MakeDir(path: Option<string>)
    | RemoveDir(path: Option<string>)

  /** krp_hook_open, true for KRP_TO_TAILHOOK */
  predicate HookOpen(env: Env, reg: seq<Entry>, path: Option<string>, flags: int) {
    if path.None? then false else
      match ResolvePath(env, path, RESOLVE_LINKS)
      case None => false
      case Some(absolute) => IsWriteAccess(flags) && IsEligible(env, reg, PathId(absolute, InodeOf(env, absolute)))
  }

  /** krp_hook_rm */
  predicate HookRm(env: Env, reg: seq<Entry>, path: Option<string>) {
    if path.None? then false else
      match ResolvePath(env, path, RESOLVE_LINKS)
      case None => false
      case Some(absolute) =>
        InodeOf(env, absolute) != NO_INO && IsEligible(env, reg, PathId(absolute, InodeOf(env, absolute)))
  }

  /** krp_hook_mkdir, which also serves rmdir */
  predicate HookMkdir(env: Env, reg: seq<Entry>, path: Option<string>) {
    if path.None? then false else
      match ResolvePath(env, path, RESOLVE_AND_IGNORE)
      case None => false
      case Some(absolute) => IsEligible(env, reg, PathId(absolute, NO_INO))
  }

  /** The probe on the function that the access goes through is enabled. */
  predicate Watched(p: Probes, a: Access) {
    match a
    case Open(viaFilpOpen, _, _) => if viaFilpOpen then p.filpOpen else p.vfsOpen
    case Delete(_) => p.mayDelete
    case MakeDir(_) => p.mkdir
    case RemoveDir(_) => p.rmdir
  }

  /** The access ends in the tail hook, that is with -EACCES and a log record. */
  predicate Denied(inst: Instance, env: Env, a: Access) {
    && Watched(inst.probes, a)
    && match a
       case Open(_, flags, path) => HookOpen(env, inst.registry, path, flags)
       case Delete(path) => HookRm(env, inst.registry, path)
       case MakeDir(path) => HookMkdir(env, inst.registry, path)
       case RemoveDir(path) => HookMkdir(env, inst.registry, path)
  }

  // ----- what the handlers look at

  function AccessFlags(a: Access): Flags {
    if a.MakeDir? || a.RemoveDir? then RESOLVE_AND_IGNORE else RESOLVE_LINKS
  }

  /** The path and inode number that decide, or None when the handler goes ahead without a search. */
  function Target(env: Env, a: Access): Option<PathId> {
    if a.path.None? then None else
      match ResolvePath(env, a.path, AccessFlags(a))
      case None => None
      case Some(absolute) =>
        var ino := InodeOf(env, absolute);
        if absolute == [] then None
        else if a.Open? && !IsWriteAccess(a.flags) then None
        else if a.Delete? && ino == NO_INO then None
        else if a.MakeDir? || a.RemoveDir? then Some(PathId(absolute, NO_INO))
        else Some(PathId(absolute, ino))
  }

  /**
   The target of an open for writing and of a deletion is the file that the path leads to, links
   followed; opening it for reading never leads to a search. A deletion needs an inode number.
   */
  lemma FileTarget(env: Env, a: Access, id: PathId, rest: int, low: int)
    requires a.Open? || a.Delete?
    requires a.Open? ==> a.flags == 4 * rest + low && 0 <= low < 4
    ensures Target(env, a) == Some(id)
       <==> && (a.Open? ==> low == 1 || low == 2)
            && a.path.Some? && a.path.value != [] && env.follow(a.path.value) == Some(id.path) && id.path != []
            && (a.Delete? ==> id.ino != NO_INO)
            && (env.inode(id.path) == Some(id.ino) || (env.inode(id.path) == None && id.ino == NO_INO))
  {
    if a.Open? {
      WriteAccessIsMode(rest, low);
    }
  }

  /** The target of mkdir and rmdir is the path itself when it is absolute, and has no inode number. */
  lemma DirectoryTarget(env: Env, a: Access, id: PathId)
    requires a.MakeDir? || a.RemoveDir?
    ensures Target(env, a) == Some(id)
       <==> && a.path.Some? && a.path.value != [] && id.path != [] && id.ino == NO_INO
            && (if a.path.value[0] == '/' then a.path.value == id.path else env.follow(a.path.value) == Some(id.path))
  {
  }

  ghost predicate SomeCovers(env: Env, reg: seq<Entry>, id: PathId) {
    exists i :: 0 <= i < |reg| && Covers(env, reg[i], id)
  }

  /** In a reachable state an access is denied exactly when the monitor is on and some entry covers its target. */
  lemma DeniedIffCovered(cfg: Config, ops: seq<Op>, env: Env, a: Access)
    ensures Denied(After(cfg, ops), env, a)
       <==> && IsOn(After(cfg, ops).state)
            && Target(env, a).Some? && SomeCovers(env, After(cfg, ops).registry, Target(env, a).value)
  {
    ProbesFollowState(cfg, ops);
    var reg := After(cfg, ops).registry;
    if a.path.Some? && ResolvePath(env, a.path, AccessFlags(a)).Some? {
      var absolute := ResolvePath(env, a.path, AccessFlags(a)).value;
      EligibleIffCovered(env, reg, PathId(absolute, InodeOf(env, absolute)));
      EligibleIffCovered(env, reg, PathId(absolute, NO_INO));
    }
  }

  /** mkdir and rmdir are decided by the paths alone. */
  lemma DirectoriesDecidedByPath(cfg: Config, ops: seq<Op>, env: Env, a: Access)
    requires a.MakeDir? || a.RemoveDir?
    ensures Denied(After(cfg, ops), env, a)
       <==> && IsOn(After(cfg, ops).state) && Target(env, a).Some?
            && exists i :: && 0 <= i < |After(cfg, ops).registry|
                           && PathCovers(env, After(cfg, ops).registry[i], Target(env, a).value.path)
  {
    var reg := After(cfg, ops).registry;
    DeniedIffCovered(cfg, ops, env, a);
    NoMarkerStored(cfg, ops);
    if Target(env, a).Some? {
      var id := Target(env, a).value;
      assert forall i :: 0 <= i < |reg| ==> (Covers(env, reg[i], id) <==> PathCovers(env, reg[i], id.path));
    }
  }

  // ----- end to end: from the administrator's calls to the denied access

  ghost predicate SurvivorCovers(cfg: Config, ops: seq<Op>, env: Env, id: PathId) {
    exists k :: && 0 <= k < |ops| && Survives(cfg, ops, k)
                && Covers(env, NewEntry(ops[k].env, ops[k].path).value, id)
  }

  lemma {:induction false} SurvivorsAreEntries(cfg: Config, ops: seq<Op>, n: nat, env: Env, id: PathId)
    requires n <= |ops|
    ensures SomeCovers(env, Surviving(cfg, ops, n), id)
       <==> exists k :: && 0 <= k < n && Survives(cfg, ops, k)
                        && Covers(env, NewEntry(ops[k].env, ops[k].path).value, id)
  {
    if n > 0 {
      SurvivorsAreEntries(cfg, ops, n - 1, env, id);
      var front := Surviving(cfg, ops, n - 1);
      if Survives(cfg, ops, n - 1) {
        CoversSnoc(env, front, NewEntry(ops[n - 1].env, ops[n - 1].path).value, id);
      }
    }
  }

  lemma CoversSnoc(env: Env, reg: seq<Entry>, e: Entry, id: PathId)
    ensures SomeCovers(env, reg + [e], id) <==> SomeCovers(env, reg, id) || Covers(env, e, id)
  {
    var reg' := reg + [e];
    assert reg'[|reg|] == e;
    assert forall i :: 0 <= i < |reg| ==> reg'[i] == reg[i];
  }

  /**
   Protection: after any run, an access is denied exactly when the monitor is on and some path
   that root successfully added, and nobody removed or flushed since, covers its target.
   */
  lemma ProtectionExact(cfg: Config, ops: seq<Op>, env: Env, a: Access)
    requires AbsoluteRun(ops)
    ensures Denied(After(cfg, ops), env, a)
       <==> && IsOn(After(cfg, ops).state)
            && Target(env, a).Some? && SurvivorCovers(cfg, ops, env, Target(env, a).value)
  {
    DeniedIffCovered(cfg, ops, env, a);
    RegistryIsSurvivingAdds(cfg, ops);
    if Target(env, a).Some? {
      SurvivorsAreEntries(cfg, ops, |ops|, env, Target(env, a).value);
    }
  }

  /** The monitor is on after the run: the state that root asked for last ends in ON. */
  predicate SwitchedOn(ops: seq<Op>) {
    LastName(ops) == "ON" || LastName(ops) == "REC-ON"
  }

  lemma SwitchedOnExact(cfg: Config, ops: seq<Op>)
    ensures IsOn(After(cfg, ops).state) <==> SwitchedOn(ops)
  {
    StateIsLastName(cfg, ops);
    ProbesFollowState(cfg, ops);
  }

  /**
   Opens and deletions through any path, link or not, that leads to file t: opening for reading
   always goes ahead; opening for writing is denied exactly when root switched the monitor on and
   an add that stands covers t; a deletion likewise, if t has an inode number.
   */
  lemma FileAccessExact(cfg: Config, ops: seq<Op>, env: Env, a: Access, t: string, rest: int, low: int)
    requires AbsoluteRun(ops) && (a.Open? || a.Delete?)
    requires a.Open? ==> a.flags == 4 * rest + low && 0 <= low < 4
    requires a.path.Some? && a.path.value != [] && env.follow(a.path.value) == Some(t) && t != []
    ensures Denied(After(cfg, ops), env, a)
       <==> && SwitchedOn(ops)
            && (a.Open? ==> low == 1 || low == 2) && (a.Delete? ==> InodeOf(env, t) != NO_INO)
            && SurvivorCovers(cfg, ops, env, PathId(t, InodeOf(env, t)))
  {
    ProtectionExact(cfg, ops, env, a);
    SwitchedOnExact(cfg, ops);
    FileTarget(env, a, PathId(t, InodeOf(env, t)), rest, low);
    if Target(env, a).Some? {
      FileTarget(env, a, Target(env, a).value, rest, low);
    }
  }

  /** mkdir and rmdir with an absolute path are decided by that path, even where it leads elsewhere. */
  lemma DirectoryAccessExact(cfg: Config, ops: seq<Op>, env: Env, a: Access)
    requires AbsoluteRun(ops) && (a.MakeDir? || a.RemoveDir?)
    requires a.path.Some? && a.path.value != [] && a.path.value[0] == '/'
    ensures Denied(After(cfg, ops), env, a)
       <==> SwitchedOn(ops) && SurvivorCovers(cfg, ops, env, PathId(a.path.value, NO_INO))
  {
    ProtectionExact(cfg, ops, env, a);
    SwitchedOnExact(cfg, ops);
    DirectoryTarget(env, a, PathId(a.path.value, NO_INO));
  }

  // ----- which files an added path protects: the file that it names

  ghost predicate OtherSurvivorCovers(cfg: Config, ops: seq<Op>, k: nat, env: Env, id: PathId) {
    exists j :: && 0 <= j < |ops| && j != k && Survives(cfg, ops, j)
                && Covers(env, NewEntry(ops[j].env, ops[j].path).value, id)
  }

  lemma SurvivorSplit(cfg: Config, ops: seq<Op>, k: nat, env: Env, id: PathId)
    requires k < |ops| && Survives(cfg, ops, k)
    ensures SurvivorCovers(cfg, ops, env, id)
       <==> Covers(env, NewEntry(ops[k].env, ops[k].path).value, id) || OtherSurvivorCovers(cfg, ops, k, env, id)
  {
  }

  /**
   The entry for path p covers the file t that p leads to, where the inode number there is now
   ino: p was relative, or it leads to itself, or its own inode number at the time of the add
   was ino, or p is a directory that t lies below.
   */
  predicate NamedFileCovered(addEnv: Env, env: Env, p: string, t: string, ino: nat) {
    || !IsResolved(p) || p == t || InodeOf(addEnv, p) == ino
    || (env.isDir(p) != 0 && IsSubpath(p, t))
  }

  /**
   The entry for path p covers name below the directory t that p leads to, where the inode
   number there is ino.
   */
  predicate BelowCovered(addEnv: Env, env: Env, p: string, t: string, name: string, ino: nat) {
    if !IsResolved(p) || p == t then
      InodeOf(addEnv, t) == ino || (env.isDir(t) != 0 && !EndsInSlash(t))
    else
      InodeOf(addEnv, p) == ino || p == Child(t, name) || (env.isDir(p) != 0 && IsSubpath(p, Child(t, name)))
  }

  lemma EntryCoversNamed(addEnv: Env, env: Env, p: string, t: string, ino: nat)
    requires NewEntry(addEnv, p).Some? && addEnv.follow(p) == Some(t)
    ensures Covers(env, NewEntry(addEnv, p).value, PathId(t, ino)) <==> NamedFileCovered(addEnv, env, p, t, ino)
  {
  }

  lemma EntryCoversBelow(addEnv: Env, env: Env, p: string, t: string, name: string, ino: nat)
    requires NewEntry(addEnv, p).Some? && addEnv.follow(p) == Some(t) && PlainName(name)
    ensures Covers(env, NewEntry(addEnv, p).value, PathId(Child(t, name), ino))
       <==> BelowCovered(addEnv, env, p, t, name, ino)
  {
    ChildCovered(t, name);
    assert |Child(t, name)| > |t|;
  }

  /**
   While an add of p stands and the monitor is on, a write to (or deletion of) the file that p
   led to is denied exactly when the entry covers it as above or another surviving add does,
   whatever inode number the file has by then.
   */
  lemma NamedFileDenied(cfg: Config, ops: seq<Op>, k: nat, env: Env, a: Access, t: string)
    requires AbsoluteRun(ops) && k < |ops| && Survives(cfg, ops, k) && IsOn(After(cfg, ops).state)
    requires ops[k].env.follow(ops[k].path) == Some(t)
    requires Target(env, a).Some? && Target(env, a).value.path == t
    ensures Denied(After(cfg, ops), env, a)
       <==> || NamedFileCovered(ops[k].env, env, ops[k].path, t, Target(env, a).value.ino)
            || OtherSurvivorCovers(cfg, ops, k, env, Target(env, a).value)
  {
    ProtectionExact(cfg, ops, env, a);
    SurvivorSplit(cfg, ops, k, env, Target(env, a).value);
    EntryCoversNamed(ops[k].env, env, ops[k].path, t, Target(env, a).value.ino);
  }

  /** The same for what lies below the directory that p leads to. */
  lemma BelowDenied(cfg: Config, ops: seq<Op>, k: nat, env: Env, a: Access, t: string, name: string)
    requires AbsoluteRun(ops) && k < |ops| && Survives(cfg, ops, k) && IsOn(After(cfg, ops).state)
    requires ops[k].env.follow(ops[k].path) == Some(t) && PlainName(name)
    requires Target(env, a).Some? && Target(env, a).value.path == Child(t, name)
    ensures Denied(After(cfg, ops), env, a)
       <==> || BelowCovered(ops[k].env, env, ops[k].path, t, name, Target(env, a).value.ino)
            || OtherSurvivorCovers(cfg, ops, k, env, Target(env, a).value)
  {
    ProtectionExact(cfg, ops, env, a);
    SurvivorSplit(cfg, ops, k, env, Target(env, a).value);
    EntryCoversBelow(ops[k].env, env, ops[k].path, t, name, Target(env, a).value.ino);
  }

  ghost predicate CoversAllBelow(env: Env, e: Entry, t: string) {
    forall name, ino :: PlainName(name) ==> Covers(env, e, PathId(Child(t, name), ino))
  }

  /**
   An entry covers everything below a directory, whatever is created there, exactly when its
   path passes is_dir and is the directory or one above it, but not the directory written with
   a slash at the end.
   */
  lemma WholeDirectoryCovered(env: Env, e: Entry, t: string)
    ensures CoversAllBelow(env, e, t)
       <==> && env.isDir(e.resolved.path) != 0
            && IsSubpath(e.resolved.path, t) && !(e.resolved.path == t && EndsInSlash(t))
  {
    var r := e.resolved.path;
    BaseCoversChildren(r, t);
    var ino := e.resolved.ino + 1;
    if CoversAllBelow(env, e, t) {
      forall name | PlainName(name)
        ensures IsSubpath(r, Child(t, name))
      {
        assert Covers(env, e, PathId(Child(t, name), ino));
      }
      assert Covers(env, e, PathId(Child(t, "x"), ino)) && Covers(env, e, PathId(Child(t, "y"), ino));
      assert Child(t, "x")[|Child(t, "x")| - 1] != Child(t, "y")[|Child(t, "y")| - 1];
    }
  }

  // ----- runs in which an added path does not protect what it names, or more than that

  lemma TwoSteps(cfg: Config, ops: seq<Op>)
    requires |ops| == 2
    ensures var i1 := Step(cfg, INITIAL, ops[0]);
            && After(cfg, ops) == Step(cfg, i1, ops[1])
            && ResultAt(cfg, ops, 0) == ResultOf(cfg, INITIAL, ops[0])
            && ResultAt(cfg, ops, 1) == ResultOf(cfg, i1, ops[1])
  {
    assert ops[..1][..0] == [] == ops[..0];
    assert After(cfg, ops[..1]) == Step(cfg, After(cfg, []), ops[0]);
  }

  /** Switching to REC-ON and adding one path, both with success. */
  ghost predicate OneAdd(cfg: Config, ops: seq<Op>, p: string) {
    && |ops| == 2 && ops[1].Add? && ops[1].path == p && AbsoluteRun(ops)
    && ResultAt(cfg, ops, 0) == 0 && ResultAt(cfg, ops, 1) == 0 && After(cfg, ops).state == REC_ON
  }

  lemma OneAddRun(cfg: Config, ops: seq<Op>)
    requires cfg.password == Hex(cfg.digest(DEFAULT_PASSWORD))
    requires |ops| == 2 && ops[0] == SetState(0, "REC-ON")
    requires ops[1].Add? && ops[1].euid == 0 && ops[1].path != [] && ops[1].password == DEFAULT_PASSWORD
    requires AbsoluteCwd(ops[1].env) && NewEntry(ops[1].env, ops[1].path).Some?
    ensures OneAdd(cfg, ops, ops[1].path)
    ensures After(cfg, ops).registry == [NewEntry(ops[1].env, ops[1].path).value]
  {
    TwoSteps(cfg, ops);
    SetStateExact(cfg, INITIAL, "REC-ON", REC_ON);
    AllChecksPass(cfg, REC_ON, 0, DEFAULT_PASSWORD, DEFAULT_PASSWORD);
    assert Step(cfg, INITIAL, ops[0]) == Instance(REC_ON, [], AllProbes(true));
  }

  /** A link /l to the file /t, and a file /f, under the root directory /. */
  const LINKED := Env(
    Some("/"),
    p => if p == "/l" then Some("/t") else Some(p),
    p => if p == "/l" then Some(5) else if p == "/t" then Some(7) else if p == "/f" then Some(12) else Some(2),
    p => if p == "/" then 1 else 0)

  function WriteOpen(path: string): Access {
    Open(false, O_WRONLY, Some(path))
  }

  /**
   The run adds p with success while the file system is as in before, and ends in REC-ON; when
   it is as in later, a write to the file t still goes ahead.
   */
  ghost predicate WriteGoesAhead(cfg: Config, ops: seq<Op>, before: Env, later: Env, p: string, t: string) {
    && OneAdd(cfg, ops, p) && ops[1].env == before
    && Target(later, WriteOpen(t)) == Some(PathId(t, InodeOf(later, t)))
    && !Denied(After(cfg, ops), later, WriteOpen(t))
  }

  lemma UncoveredGoesAhead(cfg: Config, before: Env, later: Env, p: string, t: string, e: Entry)
    requires cfg.password == Hex(cfg.digest(DEFAULT_PASSWORD))
    requires AbsoluteCwd(before) && p != [] && NewEntry(before, p) == Some(e)
    requires Target(later, WriteOpen(t)) == Some(PathId(t, InodeOf(later, t)))
    requires !Covers(later, e, PathId(t, InodeOf(later, t)))
    ensures exists ops :: WriteGoesAhead(cfg, ops, before, later, p, t)
  {
    var ops := [SetState(0, "REC-ON"), Add(0, before, p, DEFAULT_PASSWORD)];
    OneAddRun(cfg, ops);
    DeniedIffCovered(cfg, ops, later, WriteOpen(t));
    assert WriteGoesAhead(cfg, ops, before, later, p, t);
  }

  /** A link that is added under its absolute path does not protect the file that it leads to. */
  lemma AbsoluteLinkUnprotected(cfg: Config)
    requires cfg.password == Hex(cfg.digest(DEFAULT_PASSWORD))
    ensures LINKED.follow("/l") == Some("/t")
    ensures exists ops :: WriteGoesAhead(cfg, ops, LINKED, LINKED, "/l", "/t")
  {
    var e := Entry(PathId("/l", 5), PathId("/l", 5));
    assert "/l"[1] != "/t"[1] && NewEntry(LINKED, "/l") == Some(e);
    UncoveredGoesAhead(cfg, LINKED, LINKED, "/l", "/t", e);
  }

  /** Adding the root directory does not protect the files in it. */
  lemma RootUnprotected(cfg: Config)
    requires cfg.password == Hex(cfg.digest(DEFAULT_PASSWORD))
    ensures LINKED.isDir("/") == 1 && Child("/", "f") == "/f"
    ensures exists ops :: WriteGoesAhead(cfg, ops, LINKED, LINKED, "/", "/f")
  {
    var e := Entry(PathId("/", 2), PathId("/", 2));
    assert "/" + "f" == "/f" && NewEntry(LINKED, "/") == Some(e);
    UncoveredGoesAhead(cfg, LINKED, LINKED, "/", "/f", e);
  }

  /** The run adds p with success and ends in REC-ON, and then the access is denied. */
  ghost predicate IsDenied(cfg: Config, ops: seq<Op>, env: Env, p: string, a: Access) {
    OneAdd(cfg, ops, p) && ops[1].env == env && Denied(After(cfg, ops), env, a)
  }

  lemma OnlyEntryCovers(env: Env, reg: seq<Entry>, e: Entry, id: PathId)
    requires reg == [e] && Covers(env, e, id)
    ensures SomeCovers(env, reg, id)
  {
    assert reg[0] == e;
  }

  lemma CoveredIsDenied(cfg: Config, env: Env, p: string, a: Access, e: Entry, id: PathId)
    requires cfg.password == Hex(cfg.digest(DEFAULT_PASSWORD))
    requires AbsoluteCwd(env) && p != [] && NewEntry(env, p) == Some(e)
    requires Target(env, a) == Some(id) && Covers(env, e, id)
    ensures exists ops :: IsDenied(cfg, ops, env, p, a)
  {
    var ops := [SetState(0, "REC-ON"), Add(0, env, p, DEFAULT_PASSWORD)];
    OneAddRun(cfg, ops);
    assert Denied(After(cfg, ops), env, a) by {
      OnlyEntryCovers(env, After(cfg, ops).registry, e, id);
      DeniedIffCovered(cfg, ops, env, a);
    }
    assert IsDenied(cfg, ops, env, p, a);
  }

  /** Deleting the link is denied when the file that it leads to is registered, although that file would stay. */
  lemma LinkDeletionDenied(cfg: Config)
    requires cfg.password == Hex(cfg.digest(DEFAULT_PASSWORD))
    ensures LINKED.follow("/l") == Some("/t") && LINKED.inode("/l") != LINKED.inode("/t")
    ensures exists ops :: IsDenied(cfg, ops, LINKED, "/t", Delete(Some("/l")))
  {
    var t := PathId("/t", 7);
    assert "/l"[1] != "/t"[1] && NewEntry(LINKED, "/t") == Some(Entry(t, t));
    CoveredIsDenied(cfg, LINKED, "/t", Delete(Some("/l")), Entry(t, t), t);
  }

  /** A link /d to the directory /e with a file f in it, whose inode number is given. */
  function LinkedDirectory(ino: nat): Env {
    Env(Some("/"),
        p => if p == "/d/f" then Some("/e/f") else Some(p),
        p => if p == "/d/f" || p == "/e/f" then Some(ino) else Some(2),
        p => if p == "/d/f" || p == "/e/f" then 0 else 1)
  }

  /**
   A file that is added under an absolute path through a linked directory is protected by its
   inode number only: when it is replaced by a new file of the same name, writes go ahead.
   */
  lemma ReplacedFileUnprotected(cfg: Config)
    requires cfg.password == Hex(cfg.digest(DEFAULT_PASSWORD))
    ensures LinkedDirectory(7).follow("/d/f") == Some("/e/f")
    ensures NamedFileCovered(LinkedDirectory(7), LinkedDirectory(7), "/d/f", "/e/f", 7)
    ensures exists ops :: WriteGoesAhead(cfg, ops, LinkedDirectory(7), LinkedDirectory(8), "/d/f", "/e/f")
  {
    var e := Entry(PathId("/d/f", 7), PathId("/d/f", 7));
    assert "/d/f"[1] != "/e/f"[1] && NewEntry(LinkedDirectory(7), "/d/f") == Some(e);
    UncoveredGoesAhead(cfg, LinkedDirectory(7), LinkedDirectory(8), "/d/f", "/e/f", e);
  }
}
