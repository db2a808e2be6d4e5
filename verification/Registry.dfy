/**
 The registry of protected paths and the search that decides whether a path is covered
 (model/registry.h, misc/fsutils.c:36-79, 168-243).
 */
module Registry {
  import opened Paths
  import opened Wrappers

  /** REFMON_NO_INO_NO, -1 as an unsigned long. */
  const NO_INO: nat := 0xFFFF_FFFF_FFFF_FFFF

  datatype PathId = PathId(path: string, ino: nat)

  datatype Entry = Entry(registered: PathId, resolved: PathId)

  /** The bits of search_criteria. */
  datatype Criteria = Criteria(
    registeredPath: bool, registeredIno: bool, absolutePath: bool, absoluteIno: bool, subdirCheck: bool)

  const BY_REGISTERED_PATH := Criteria(true, false, false, false, false)
  const BY_COVERAGE := Criteria(false, false, true, true, true)

  /** extract_ino_no_from_path */
  function InodeOf(env: Env, path: string): nat {
    match env.inode(path)
    case None => NO_INO
    case Some(ino) => ino
  }

  predicate Matches(env: Env, id: PathId, criteria: Criteria, e: Entry) {
    || (criteria.registeredPath && e.registered.path == id.path)
    || (criteria.registeredIno && e.registered.ino == id.ino)
    || (criteria.absolutePath && e.resolved.path == id.path)
    || (criteria.absoluteIno && e.resolved.ino == id.ino)
    || (criteria.subdirCheck && env.isDir(e.resolved.path) != 0 && IsSubpath(e.resolved.path, id.path))
  }

  predicate NeedsPath(criteria: Criteria) {
    criteria.registeredPath || criteria.absolutePath || criteria.subdirCheck
  }

  /** The index of the first entry from i on that matches. */
  function FirstMatch(env: Env, reg: seq<Entry>, id: PathId, criteria: Criteria, i: nat): (r: Option<nat>)
    requires i <= |reg|
    ensures r.Some? ==> i <= r.value < |reg| && Matches(env, id, criteria, reg[r.value])
    ensures forall k :: i <= k < (if r.Some? then r.value else |reg|) ==> !Matches(env, id, criteria, reg[k])
    decreases |reg| - i
  {
    if i == |reg| then None
    else if Matches(env, id, criteria, reg[i]) then Some(i)
    else FirstMatch(env, reg, id, criteria, i + 1)
  }

  /** search_entry, as the index of the entry found */
  function SearchEntry(env: Env, reg: seq<Entry>, id: PathId, criteria: Criteria): (r: Option<nat>)
    ensures r.Some? ==> r.value < |reg|
  {
    if reg == [] then None
    else if id.path == [] && NeedsPath(criteria) then None
    else FirstMatch(env, reg, id, criteria, 0)
  }

  /** find_entry_by_regpath_alloc */
  function FindByRegisteredPath(env: Env, reg: seq<Entry>, path: Option<string>): (r: Option<nat>)
    ensures r.Some? ==> r.value < |reg|
  {
    match ResolvePath(env, path, IGNORE_ABSOLUTE)
    case None => None
    case Some(solved) => SearchEntry(env, reg, PathId(solved, NO_INO), BY_REGISTERED_PATH)
  }

  /** is_eligible */
  predicate IsEligible(env: Env, reg: seq<Entry>, id: PathId) {
    SearchEntry(env, reg, id, BY_COVERAGE).Some?
  }

  // ----- what eligibility means

  /** The entry protects the path: same path, same inode, or a directory above it. */
  predicate Covers(env: Env, e: Entry, id: PathId) {
    PathCovers(env, e, id.path) || e.resolved.ino == id.ino
  }

  predicate PathCovers(env: Env, e: Entry, path: string) {
    e.resolved.path == path || (env.isDir(e.resolved.path) != 0 && IsSubpath(e.resolved.path, path))
  }

  /** A non-empty path is eligible exactly when some entry covers it; the empty path never is. */
  lemma EligibleIffCovered(env: Env, reg: seq<Entry>, id: PathId)
    ensures IsEligible(env, reg, id) <==> id.path != [] && exists i :: 0 <= i < |reg| && Covers(env, reg[i], id)
  {
    var r := FirstMatch(env, reg, id, BY_COVERAGE, 0);
    forall i | 0 <= i < |reg|
      ensures Matches(env, id, BY_COVERAGE, reg[i]) <==> Covers(env, reg[i], id)
    {
    }
    if r.Some? {
      assert Covers(env, reg[r.value], id);
    }
  }

  /** Only which entries there are matters, not their order. */
  lemma EligibleOrderIndependent(env: Env, reg: seq<Entry>, reg': seq<Entry>, id: PathId)
    requires multiset(reg) == multiset(reg')
    ensures IsEligible(env, reg, id) == IsEligible(env, reg', id)
  {
    EligibleIffCovered(env, reg, id);
    EligibleIffCovered(env, reg', id);
    SameMembers(reg, reg');
    SameMembers(reg', reg);
    assert forall i :: 0 <= i < |reg| && Covers(env, reg[i], id) ==>
             exists j :: 0 <= j < |reg'| && Covers(env, reg'[j], id);
    assert forall j :: 0 <= j < |reg'| && Covers(env, reg'[j], id) ==>
             exists i :: 0 <= i < |reg| && Covers(env, reg[i], id);
  }

  lemma SameMembers<T>(a: seq<T>, b: seq<T>)
    requires multiset(a) == multiset(b)
    ensures forall i :: 0 <= i < |a| ==> exists j :: 0 <= j < |b| && b[j] == a[i]
  {
    forall i | 0 <= i < |a|
      ensures exists j :: 0 <= j < |b| && b[j] == a[i]
    {
      assert a[i] in multiset(a);
      assert a[i] in multiset(b);
      assert a[i] in b;
    }
  }

  /** Adding an entry adds exactly what it covers. */
  lemma AddingWidens(env: Env, reg: seq<Entry>, e: Entry, id: PathId)
    ensures IsEligible(env, reg + [e], id) <==> IsEligible(env, reg, id) || (id.path != [] && Covers(env, e, id))
  {
    EligibleIffCovered(env, reg, id);
    EligibleIffCovered(env, reg + [e], id);
    var reg' := reg + [e];
    assert reg'[|reg|] == e;
    assert forall i :: 0 <= i < |reg| ==> reg'[i] == reg[i];
  }

  function Without<T>(s: seq<T>, k: nat): seq<T>
    requires k < |s|
  {
    s[..k] + s[k + 1..]
  }

  /**
   Removing an entry whose resolved path lies under another entry that passes is_dir: the
   answer changes exactly for non-empty paths that carry the removed inode number and that
   nothing else covers.
   */
  lemma RemovingShadowed(env: Env, reg: seq<Entry>, k: nat, j: nat, id: PathId)
    requires k < |reg| && j < |reg| && j != k
    requires env.isDir(reg[j].resolved.path) != 0 && IsSubpath(reg[j].resolved.path, reg[k].resolved.path)
    ensures IsEligible(env, reg, id) != IsEligible(env, Without(reg, k), id)
       <==> && id.path != [] && id.ino == reg[k].resolved.ino
            && !exists i :: 0 <= i < |reg| && i != k && Covers(env, reg[i], id)
    ensures IsEligible(env, Without(reg, k), id) ==> IsEligible(env, reg, id)
  {
    EligibleIffCovered(env, reg, id);
    EligibleIffCovered(env, Without(reg, k), id);
    RemainingEntries(env, reg, k, id);
    if PathCovers(env, reg[k], id.path) {
      if reg[k].resolved.path != id.path {
        SubpathTransitive(reg[j].resolved.path, reg[k].resolved.path, id.path);
      }
      assert Covers(env, reg[j], id);
    }
  }

  lemma RemainingEntries(env: Env, reg: seq<Entry>, k: nat, id: PathId)
    requires k < |reg|
    ensures (exists i :: 0 <= i < |reg| && i != k && Covers(env, reg[i], id))
       <==> (exists i :: 0 <= i < |reg| - 1 && Covers(env, Without(reg, k)[i], id))
  {
    var rest := Without(reg, k);
    if i :| 0 <= i < |reg| && i != k && Covers(env, reg[i], id) {
      assert rest[if i < k then i else i - 1] == reg[i];
    }
    if i :| 0 <= i < |rest| && Covers(env, rest[i], id) {
      assert reg[if i < k then i else i + 1] == rest[i];
    }
  }

  ghost predicate NoMarkers(reg: seq<Entry>) {
    forall i :: 0 <= i < |reg| ==> reg[i].registered.ino != NO_INO && reg[i].resolved.ino != NO_INO
  }

  /** A query without an inode number is decided by the paths alone. */
  lemma MarkerDecidedByPath(env: Env, reg: seq<Entry>, path: string)
    requires NoMarkers(reg)
    ensures IsEligible(env, reg, PathId(path, NO_INO))
       <==> path != [] && exists i :: 0 <= i < |reg| && PathCovers(env, reg[i], path)
  {
    EligibleIffCovered(env, reg, PathId(path, NO_INO));
    assert forall i :: 0 <= i < |reg| ==>
             (Covers(env, reg[i], PathId(path, NO_INO)) <==> PathCovers(env, reg[i], path));
  }
}
