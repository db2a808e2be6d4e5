/**
 Path strings (misc/fsutils.c:10-15, 81-166): the subpath test and path normalisation.
 A C string is a Dafny string without its terminator, so strncmp over the length of base is
 the prefix test, and reading the terminator is reaching the end of the string.
 */
module Paths {
  import opened Sequences
  import opened Wrappers

  predicate IsSubpath(base: string, sub: string) {
    base <= sub && (|sub| == |base| || sub[|base|] == '/')
  }

  /** The components of a path: what stands between its slashes. */
  function Split(s: string): (parts: seq<string>)
    ensures parts != []
  {
    if s == [] then [[]]
    else if s[0] == '/' then [[]] + Split(s[1..])
    else var rest := Split(s[1..]); [[s[0]] + rest[0]] + rest[1..]
  }

  lemma SplitSlash(s: string)
    ensures Split("/" + s) == [[]] + Split(s)
  {
    assert ("/" + s)[1..] == s;
  }

  lemma SplitOther(c: char, s: string)
    requires c != '/'
    ensures Split([c] + s) == [[c] + Split(s)[0]] + Split(s)[1..]
  {
    assert ([c] + s)[1..] == s;
  }

  lemma PrefixCons<T>(x: T, a: seq<T>, y: T, b: seq<T>)
    ensures [x] + a <= [y] + b <==> x == y && a <= b
  {
    if [x] + a <= [y] + b {
      assert ([x] + a)[0] == ([y] + b)[0];
      assert forall i :: 0 <= i < |a| ==> a[i] == ([x] + a)[i + 1] == ([y] + b)[i + 1] == b[i];
    }
    if x == y && a <= b {
      assert forall i :: 0 <= i < |[x] + a| ==> ([x] + a)[i] == ([y] + b)[i];
    }
  }

  /** The subpath test is exactly "the components of base are the first components of sub". */
  lemma {:induction false} SubpathIsComponentPrefix(base: string, sub: string)
    ensures IsSubpath(base, sub) <==> Split(base) <= Split(sub)
  {
    if base == [] {
      EmptyBase(sub);
    } else if sub == [] {
      ShortSub(base);
    } else {
      var c, b, d, s := base[0], base[1..], sub[0], sub[1..];
      assert base == [c] + b && sub == [d] + s;
      SubpathIsComponentPrefix(b, s);
      SubpathCons(c, b, d, s);
      if c == '/' && d == '/' {
        SplitSlash(b);
        SplitSlash(s);
        PrefixCons([], Split(b), [], Split(s));
      } else if c != '/' && d != '/' {
        SplitOther(c, b);
        SplitOther(d, s);
        var x, y := Split(b), Split(s);
        assert x == [x[0]] + x[1..] && y == [y[0]] + y[1..];
        PrefixCons([c] + x[0], x[1..], [d] + y[0], y[1..]);
        PrefixCons(x[0], x[1..], y[0], y[1..]);
        assert [c] + x[0] == [d] + y[0] <==> c == d && x[0] == y[0] by {
          if [c] + x[0] == [d] + y[0] {
            assert ([c] + x[0])[0] == ([d] + y[0])[0];
            assert ([c] + x[0])[1..] == ([d] + y[0])[1..];
          }
        }
      } else {
        assert Split(base)[0] != Split(sub)[0];
      }
    }
  }

  lemma EmptyBase(sub: string)
    ensures IsSubpath([], sub) <==> Split([]) <= Split(sub)
  {
    assert Split([]) == [[]];
    assert Split(sub)[0] == [] <==> sub == [] || sub[0] == '/';
  }

  lemma ShortSub(base: string)
    requires base != []
    ensures !IsSubpath(base, []) && !(Split(base) <= Split([]))
  {
    if base[0] == '/' {
      assert |Split(base)| >= 2;
    } else {
      assert Split(base)[0] != [];
    }
  }

  lemma SubpathCons(c: char, b: string, d: char, s: string)
    ensures IsSubpath([c] + b, [d] + s) <==> c == d && IsSubpath(b, s)
  {
    PrefixCons(c, b, d, s);
  }

  // ----- consequences: a partial order in which the bases of one path form a chain

  lemma PrefixComparable<T>(a: seq<T>, b: seq<T>, c: seq<T>)
    requires a <= c && b <= c
    ensures a <= b || b <= a
  {
    if |a| <= |b| {
      assert forall i :: 0 <= i < |a| ==> a[i] == c[i] == b[i];
    } else {
      assert forall i :: 0 <= i < |b| ==> a[i] == c[i] == b[i];
    }
  }

  lemma SubpathTransitive(p: string, q: string, r: string)
    requires IsSubpath(p, q) && IsSubpath(q, r)
    ensures IsSubpath(p, r)
  {
    SubpathIsComponentPrefix(p, q);
    SubpathIsComponentPrefix(q, r);
    SubpathIsComponentPrefix(p, r);
    PrefixTransitive(Split(p), Split(q), Split(r));
  }

  /** Reflexive, antisymmetric and transitive. */
  lemma SubpathIsPartialOrder(p: string, q: string, r: string)
    ensures IsSubpath(p, p)
    ensures IsSubpath(p, q) && IsSubpath(q, p) ==> p == q
    ensures IsSubpath(p, q) && IsSubpath(q, r) ==> IsSubpath(p, r)
  {
    if IsSubpath(p, q) && IsSubpath(q, r) {
      SubpathTransitive(p, q, r);
    }
  }

  /** Any two bases of the same path lie one below the other. */
  lemma BasesAreComparable(p: string, q: string, sub: string)
    requires IsSubpath(p, sub) && IsSubpath(q, sub)
    ensures IsSubpath(p, q) || IsSubpath(q, p)
  {
    SubpathIsComponentPrefix(p, sub);
    SubpathIsComponentPrefix(q, sub);
    PrefixComparable(Split(p), Split(q), Split(sub));
    SubpathIsComponentPrefix(p, q);
    SubpathIsComponentPrefix(q, p);
  }

  /** Everything below a directory, written with one more slash, is a subpath of it. */
  lemma BelowIsSubpath(dir: string, name: string)
    ensures IsSubpath(dir, dir + "/" + name)
  {
    assert dir + "/" + name == dir + ("/" + name);
  }

  predicate EndsInSlash(p: string) {
    p != [] && p[|p| - 1] == '/'
  }

  /** A name in a directory, or a path that starts with one. */
  predicate PlainName(name: string) {
    name != [] && name[0] != '/'
  }

  /** The path of name below dir as the kernel writes it, without a doubled slash. */
  function Child(dir: string, name: string): string {
    if EndsInSlash(dir) then dir + name else dir + "/" + name
  }

  /** What lies below a directory is a subpath of it exactly when its path does not end in a slash. */
  lemma ChildCovered(dir: string, name: string)
    requires PlainName(name)
    ensures IsSubpath(dir, Child(dir, name)) <==> !EndsInSlash(dir)
  {
    if EndsInSlash(dir) {
      assert Child(dir, name)[|dir|] == name[0];
    } else {
      BelowIsSubpath(dir, name);
    }
  }

  /**
   A base covers everything below a directory exactly when it covers the directory, and is not
   that directory written with a slash at the end.
   */
  lemma BaseCoversChildren(base: string, dir: string)
    ensures (forall name :: PlainName(name) ==> IsSubpath(base, Child(dir, name)))
       <==> IsSubpath(base, dir) && !(base == dir && EndsInSlash(dir))
  {
    if IsSubpath(base, dir) {
      forall name | PlainName(name)
        ensures IsSubpath(base, Child(dir, name)) <==> !(base == dir && EndsInSlash(dir))
      {
        if base == dir {
          ChildCovered(dir, name);
        } else {
          assert dir <= Child(dir, name);
          assert Child(dir, name)[|base|] == dir[|base|] == '/';
        }
      }
      assert PlainName("z");
    } else if IsSubpath(base, Child(dir, "x")) && IsSubpath(base, Child(dir, "y")) {
      BothChildren(base, dir);
    } else {
      assert PlainName("x") && PlainName("y");
    }
  }

  /** A base of two different children of a directory is a base of the directory. */
  lemma BothChildren(base: string, dir: string)
    requires IsSubpath(base, Child(dir, "x")) && IsSubpath(base, Child(dir, "y"))
    ensures IsSubpath(base, dir)
  {
    var s, t := Child(dir, "x"), Child(dir, "y");
    assert |s| == |t| && s[|s| - 1] == 'x' && t[|t| - 1] == 'y';
    assert dir <= s;
    assert forall i :: 0 <= i < |base| ==> s[i] == t[i];
  }

  // ----- normalisation

  const PATH_MAX: nat := 4096

  predicate IsResolved(path: string) {
    path != [] && path[0] == '/'
  }

  /**
   What the kernel answers about the file system during one system call. Lookups of relative
   paths are relative to the caller's current directory.
     cwd        d_path of the current directory
     follow     kern_path with LOOKUP_FOLLOW and then dentry_path_raw
     inode      the inode number that kern_path without flags leads to
     isDir      is_dir: 1, 0, or -1 when the lookup fails
   */
  datatype Env = Env(
    cwd: Option<string>,
    follow: string -> Option<string>,
    inode: string -> Option<nat>,
    isDir: string -> int)

  datatype Flags = Flags(resolveLinks: bool, ignoreAbsolute: bool)

  const IGNORE_ABSOLUTE := Flags(false, true)
  const RESOLVE_LINKS := Flags(true, false)
  const RESOLVE_AND_IGNORE := Flags(true, true)

  /** resolve_path_alloc, with None for NULL on either side. */
  function ResolvePath(env: Env, input: Option<string>, flags: Flags): Option<string> {
    if input.None? || input.value == [] then None
    else if flags.ignoreAbsolute && IsResolved(input.value) then input
    else if flags.resolveLinks then env.follow(input.value)
    else if env.cwd.None? then None
    else
      var path := env.cwd.value + "/" + input.value;
      if |path| >= PATH_MAX then None else Some(path)
  }

  lemma {:induction false} SplitJoin(a: string, b: string)
    ensures Split(a + "/" + b) == Split(a) + Split(b)
  {
    if a == [] {
      SplitSlash(b);
      assert [] + "/" + b == "/" + b;
    } else {
      SplitJoin(a[1..], b);
      SplitFront(a[0], a[1..], a[1..] + "/" + b, Split(b));
      assert a + "/" + b == [a[0]] + (a[1..] + "/" + b) && a == [a[0]] + a[1..];
    }
  }

  lemma PrependToFirst(c: char, parts: seq<string>, more: seq<string>)
    requires parts != []
    ensures [[c] + (parts + more)[0]] + (parts + more)[1..] == [[c] + parts[0]] + parts[1..] + more
  {
    assert (parts + more)[1..] == parts[1..] + more;
  }

  lemma SplitFront(c: char, s: string, t: string, more: seq<string>)
    requires Split(t) == Split(s) + more
    ensures Split([c] + t) == Split([c] + s) + more
  {
    if c == '/' {
      assert Split("/" + t) == Split("/" + s) + more by {
        SplitSlash(t);
        SplitSlash(s);
        Associative([[]], Split(s), more);
      }
    } else {
      SplitOther(c, t);
      SplitOther(c, s);
      PrependToFirst(c, Split(s), more);
    }
  }

  /** A path is determined by its components. */
  lemma SplitInjective(p: string, q: string)
    requires Split(p) == Split(q)
    ensures p == q
  {
    SubpathIsComponentPrefix(p, q);
    SubpathIsComponentPrefix(q, p);
  }

  /**
   Resolution without links: an absolute path stays, and a relative one gets the components of
   the current directory in front of its own, if the result fits 4096 bytes with its terminator.
   */
  lemma ResolveRelative(env: Env, path: string, r: string)
    requires path != []
    ensures path[0] == '/' ==> ResolvePath(env, Some(path), IGNORE_ABSOLUTE) == Some(path)
    ensures path[0] != '/' ==>
              (ResolvePath(env, Some(path), IGNORE_ABSOLUTE) == Some(r)
               <==> env.cwd.Some? && Split(r) == Split(env.cwd.value) + Split(path) && |r| + 1 <= 4096)
  {
    if env.cwd.Some? {
      var joined := env.cwd.value + "/" + path;
      SplitJoin(env.cwd.value, path);
      if Split(r) == Split(joined) {
        SplitInjective(r, joined);
      }
    }
  }

  ghost predicate AbsoluteCwd(env: Env) {
    env.cwd.Some? ==> IsResolved(env.cwd.value)
  }

  /** A path that was made absolute stays as it is when it is resolved again. */
  lemma ResolveTwice(env: Env, env': Env, input: Option<string>)
    requires AbsoluteCwd(env) && ResolvePath(env, input, IGNORE_ABSOLUTE).Some?
    ensures var r := ResolvePath(env, input, IGNORE_ABSOLUTE);
            && r.value != [] && IsResolved(r.value)
            && ResolvePath(env', r, IGNORE_ABSOLUTE) == r
  {
  }

  /** Resolving again is the identity on absolute paths and on no others. */
  lemma ResolveFixpoint(env: Env, path: string)
    requires path != []
    ensures ResolvePath(env, Some(path), IGNORE_ABSOLUTE) == Some(path) <==> IsResolved(path)
  {
    if !IsResolved(path) && env.cwd.Some? {
      assert |env.cwd.value + "/" + path| > |path|;
    }
  }
}
