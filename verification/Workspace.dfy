/** Loading a program with its imports (src/exec/workspace.c): depth first, each path once, dependencies'
    statements before the importer's. */
module Workspace {
  import opened Wrappers
  import opened Counting
  import opened DecimalText
  import opened Words

  const MAX_FILES := 64

  /** A top-level statement. The path an import resolves to is None when it is unsafe or too long. */
  datatype Stmt = Import(dep: Option<string>) | Other(id: nat)

  /** The files that can be read and parsed, by path. */
  type Files = map<string, seq<Stmt>>

  predicate Imports(fs: Files, f: string, d: string) { f in fs && Import(Some(d)) in fs[f] }

  // ----- reachability -----

  ghost predicate ImportPath(fs: Files, path: seq<string>) {
    path != [] && forall i :: 0 <= i < |path| - 1 ==> Imports(fs, path[i], path[i + 1])
  }

  /** b is a or imported from it, directly or not. */
  ghost predicate Reaches(fs: Files, a: string, b: string) {
    exists path :: ImportPath(fs, path) && path[0] == a && path[|path| - 1] == b
  }

  lemma {:induction false} ReachesSelf(fs: Files, a: string)
    ensures Reaches(fs, a, a)
  {
    assert ImportPath(fs, [a]);
  }

  lemma {:induction false} ReachesVia(fs: Files, a: string, b: string, c: string)
    requires Imports(fs, a, b) && Reaches(fs, b, c)
    ensures Reaches(fs, a, c)
  {
    var path :| ImportPath(fs, path) && path[0] == b && path[|path| - 1] == c;
    assert ImportPath(fs, [a] + path);
  }

  lemma {:induction false} ReachesThen(fs: Files, a: string, b: string, c: string)
    requires Reaches(fs, a, b) && Imports(fs, b, c)
    ensures Reaches(fs, a, c)
  {
    var path :| ImportPath(fs, path) && path[0] == a && path[|path| - 1] == b;
    var longer := path + [c];
    forall i | 0 <= i < |longer| - 1
      ensures Imports(fs, longer[i], longer[i + 1])
    {
      if i < |path| - 1 { assert Imports(fs, path[i], path[i + 1]); }
    }
    assert ImportPath(fs, longer);
  }

  /** A set with all imports of its members contains all they reach. */
  ghost predicate Closed(fs: Files, s: set<string>) { forall f, d :: f in s && Imports(fs, f, d) ==> d in s }

  lemma {:induction false} ClosedContains(fs: Files, s: set<string>, path: seq<string>)
    requires Closed(fs, s) && ImportPath(fs, path) && path[0] in s
    ensures path[|path| - 1] in s
    decreases |path|
  {
    if |path| > 1 {
      assert Imports(fs, path[0], path[1]);
      var rest := path[1..];
      forall i | 0 <= i < |rest| - 1
        ensures Imports(fs, rest[i], rest[i + 1])
      {
        assert Imports(fs, path[i + 1], path[i + 2]);
      }
      ClosedContains(fs, s, rest);
    }
  }

  // ----- what is emitted -----

  function Others(ss: seq<Stmt>): seq<Stmt> {
    if ss == [] then [] else (if ss[0].Import? then [] else [ss[0]]) + Others(ss[1..])
  }

  /** The statements of these files, one file after the other. */
  ghost function Emitted(fs: Files, order: seq<string>): seq<Stmt>
    requires forall f :: f in order ==> f in fs
  {
    if order == [] then [] else Emitted(fs, order[..|order| - 1]) + Others(fs[order[|order| - 1]])
  }

  // ----- what the emitted statements are, file by file -----

  /** Strictly increasing positions: all that hold a statement other than an import, and no others. */
  ghost predicate Kept(stmts: seq<Stmt>, positions: seq<nat>) {
    && (forall k, m :: 0 <= k < m < |positions| ==> positions[k] < positions[m])
    && forall i: nat :: i in positions <==> i < |stmts| && !stmts[i].Import?
  }

  /** Piece j of out, from starts[j] on, holds the statements of file j that are not imports, in their order. */
  ghost predicate FileByFile(fs: Files, order: seq<string>, out: seq<Stmt>, starts: seq<nat>, kept: seq<seq<nat>>)
    requires forall f :: f in order ==> f in fs
  {
    && |starts| == |order| + 1 && |kept| == |order| && starts[0] == 0 && starts[|order|] == |out|
    && forall j :: 0 <= j < |order| ==>
      Kept(fs[order[j]], kept[j]) && starts[j + 1] == starts[j] + |kept[j]| && PieceIs(out, starts[j], fs[order[j]], kept[j])
  }

  ghost predicate PieceIs(out: seq<Stmt>, start: nat, stmts: seq<Stmt>, positions: seq<nat>) {
    start + |positions| <= |out| && forall k :: 0 <= k < |positions| ==>
      positions[k] < |stmts| && out[start + k] == stmts[positions[k]]
  }

  /** How often a statement stands in these files. */
  ghost function Occurrences(fs: Files, order: seq<string>, s: Stmt): nat
    requires forall f :: f in order ==> f in fs
  {
    if order == [] then 0 else Occurrences(fs, order[..|order| - 1], s) + multiset(fs[order[|order| - 1]])[s]
  }

  lemma {:induction false} OthersSnoc(ss: seq<Stmt>, s: Stmt)
    ensures Others(ss + [s]) == Others(ss) + (if s.Import? then [] else [s])
  {
    if ss == [] {
      assert [] + [s] == [s] && [s][1..] == [];
    } else {
      OthersSnoc(ss[1..], s);
      assert (ss + [s])[1..] == ss[1..] + [s];
    }
  }

  lemma {:induction false} OthersKept(ss: seq<Stmt>) returns (positions: seq<nat>)
    ensures Kept(ss, positions) && |Others(ss)| == |positions| && PieceIs(Others(ss), 0, ss, positions)
  {
    hide Others, Kept, PieceIs;
    NoOthers();
    positions := [];
    if ss != [] {
      var front, last := ss[..|ss| - 1], ss[|ss| - 1];
      var before := OthersKept(front);
      assert ss == front + [last];
      OthersSnoc(front, last);
      KeptSnoc(front, last, before, Others(front));
      positions := before + (if last.Import? then [] else [|front|]);
    }
  }

  lemma {:induction false} KeptSnoc(ss: seq<Stmt>, s: Stmt, positions: seq<nat>, out: seq<Stmt>)
    requires Kept(ss, positions) && |out| == |positions| && PieceIs(out, 0, ss, positions)
    ensures var more := positions + (if s.Import? then [] else [|ss|]);
      Kept(ss + [s], more) && PieceIs(out + (if s.Import? then [] else [s]), 0, ss + [s], more)
  {
    KeptMore(ss, s, positions);
    hide Kept;
    var more := positions + (if s.Import? then [] else [|ss|]);
    var longer := out + (if s.Import? then [] else [s]);
    forall k | 0 <= k < |more|
      ensures more[k] < |ss + [s]| && longer[0 + k] == (ss + [s])[more[k]]
    {
      if k < |positions| { assert out[0 + k] == ss[positions[k]]; }
    }
  }

  lemma {:induction false} KeptMore(ss: seq<Stmt>, s: Stmt, positions: seq<nat>)
    requires Kept(ss, positions)
    ensures Kept(ss + [s], positions + (if s.Import? then [] else [|ss|]))
  {
    var more := positions + (if s.Import? then [] else [|ss|]);
    forall i: nat
      ensures i in more <==> i < |ss + [s]| && !(ss + [s])[i].Import?
    {
      assert i in more <==> i in positions || (!s.Import? && i == |ss|);
    }
    forall k, m | 0 <= k < m < |more|
      ensures more[k] < more[m]
    {
      assert positions[k] in positions;
    }
  }

  lemma {:induction false} PieceKept(a: seq<Stmt>, b: seq<Stmt>, start: nat, stmts: seq<Stmt>, positions: seq<nat>)
    requires PieceIs(a, start, stmts, positions)
    ensures PieceIs(a + b, start, stmts, positions)
  {
  }

  lemma {:induction false} PieceMoved(a: seq<Stmt>, b: seq<Stmt>, stmts: seq<Stmt>, positions: seq<nat>)
    requires PieceIs(b, 0, stmts, positions)
    ensures PieceIs(a + b, |a|, stmts, positions)
  {
    forall k | 0 <= k < |positions|
      ensures positions[k] < |stmts| && (a + b)[|a| + k] == stmts[positions[k]]
    {
      assert b[0 + k] == stmts[positions[k]];
    }
  }

  lemma {:induction false} NoOthers()
    ensures Others([]) == [] && Kept([], []) && PieceIs([], 0, [], [])
  {
  }

  lemma {:induction false} OthersCount(ss: seq<Stmt>, s: Stmt)
    ensures multiset(Others(ss))[s] == if s.Import? then 0 else multiset(ss)[s]
  {
    if ss != [] {
      OthersCount(ss[1..], s);
      assert ss == [ss[0]] + ss[1..];
    }
  }

  lemma {:induction false} EmittedFileByFile(fs: Files, order: seq<string>) returns (starts: seq<nat>, kept: seq<seq<nat>>)
    requires forall f :: f in order ==> f in fs
    ensures FileByFile(fs, order, Emitted(fs, order), starts, kept)
  {
    hide Others, Kept, PieceIs;
    if order == [] {
      starts, kept := [0], [];
    } else {
      var front, last := order[..|order| - 1], order[|order| - 1];
      var starts', kept' := EmittedFileByFile(fs, front);
      var positions := OthersKept(fs[last]);
      var before := Emitted(fs, front);
      var out := before + Others(fs[last]);
      starts, kept := starts' + [|out|], kept' + [positions];
      forall j | 0 <= j < |order|
        ensures Kept(fs[order[j]], kept[j]) && starts[j + 1] == starts[j] + |kept[j]| && PieceIs(out, starts[j], fs[order[j]], kept[j])
      {
        if j < |front| {
          PieceKept(before, Others(fs[last]), starts'[j], fs[front[j]], kept'[j]);
        } else {
          PieceMoved(before, Others(fs[last]), fs[last], positions);
        }
      }
    }
  }

  lemma {:induction false} EmittedCount(fs: Files, order: seq<string>, s: Stmt)
    requires forall f :: f in order ==> f in fs
    ensures multiset(Emitted(fs, order))[s] == if s.Import? then 0 else Occurrences(fs, order, s)
  {
    if order != [] {
      EmittedCount(fs, order[..|order| - 1], s);
      OthersCount(fs[order[|order| - 1]], s);
    }
  }

  /** Whatever a file imports comes before it, unless it imports that file in turn. */
  ghost predicate DependenciesFirst(fs: Files, order: seq<string>) {
    forall j, d :: 0 <= j < |order| && Imports(fs, order[j], d) && d in fs ==> d in order[..j] || Reaches(fs, d, order[j])
  }

  /** No file imports itself, directly or not. */
  ghost predicate Acyclic(fs: Files) { forall f, d :: Imports(fs, f, d) ==> !Reaches(fs, d, f) }

  // ----- loading as a function, to a bounded depth -----

  /** The recorded files after loading path, or None when imports nest deeper than depth. */
  function Loading(fs: Files, files: seq<string>, path: string, depth: nat): Option<seq<string>>
    decreases depth, 0
  {
    if depth == 0 then None
    else if path in files then Some(files)
    else
      var recorded := if |files| < MAX_FILES then files + [path] else files;
      if path !in fs then Some(recorded) else LoadingImports(fs, recorded, fs[path], depth - 1)
  }

  function LoadingImports(fs: Files, files: seq<string>, stmts: seq<Stmt>, depth: nat): Option<seq<string>>
    decreases depth, |stmts| + 1
  {
    if stmts == [] then Some(files)
    else
      var front := LoadingImports(fs, files, stmts[..|stmts| - 1], depth);
      if front.None? then None else OneImport(fs, front.value, stmts[|stmts| - 1], depth)
  }

  function OneImport(fs: Files, files: seq<string>, stmt: Stmt, depth: nat): Option<seq<string>>
    decreases depth, 1
  {
    if stmt.Import? && stmt.dep.Some? then Loading(fs, files, stmt.dep.value, depth) else Some(files)
  }

  /** With this much depth, and any more, the imports leave these files recorded. */
  ghost predicate LoadsTo(fs: Files, files: seq<string>, stmts: seq<Stmt>, room: int, after: seq<string>) {
    forall n: nat :: n >= room ==> LoadingImports(fs, files, stmts, n) == Some(after)
  }

  ghost predicate FileLoadsTo(fs: Files, files: seq<string>, path: string, room: int, after: seq<string>) {
    forall n: nat :: n >= room ==> Loading(fs, files, path, n) == Some(after)
  }

  // ----- the loader -----

  class Loader {
    const fs: Files
    var files: seq<string>
    var out: seq<Stmt>
    ghost var order: seq<string>

    constructor (fs: Files)
      ensures this.fs == fs && files == [] && out == [] && order == [] && Valid({})
    {
      this.fs := fs;
      files, out, order := [], [], [];
    }

    /** Recorded files are distinct; each one that can be parsed has been emitted or is still being loaded. */
    ghost predicate Valid(pending: set<string>)
      reads this
    {
      && Distinct(files) && Distinct(order)
      && (forall f :: f in order ==> f in fs && f in files)
      && (forall f :: f in files && f in fs && f !in pending ==> f in order)
      && (forall f, d :: f in order && Imports(fs, f, d) ==> d in files)
      && (forall f :: f in pending ==> f !in order)
      && DependenciesFirst(fs, order) && out == Emitted(fs, order)
    }

    /** mark_loaded: remember the path, if there is room. */
    method Record(path: string, ghost pending: set<string>)
      requires Valid(pending) && path !in files && |files| < MAX_FILES
      modifies this`files
      ensures files == old(files) + [path] && Valid(if path in fs then pending + {path} else pending)
    {
      if |files| < MAX_FILES { files := files + [path]; }
    }

    /** Load a file and, before its own statements, everything it imports. */
    method LoadFile(path: string, ghost pending: set<string>, ghost universe: set<string>)
      requires Valid(pending) && |universe| <= MAX_FILES && Closed(fs, universe) && path in universe
      requires forall f :: f in files ==> f in universe
      requires forall p :: p in pending ==> p in files && Reaches(fs, p, path)
      modifies this
      ensures Valid(pending) && old(files) <= files && old(order) <= order && path in files
      ensures forall f :: f in files ==> f in universe && (f in old(files) || Reaches(fs, path, f))
      ensures FileLoadsTo(fs, old(files), path, |universe| + 1 - |old(files)|, files)
      decreases |universe| - |files|, 0
    {
      hide Valid, Reaches, Closed, Loading, LoadsTo, FileLoadsTo;
      DistinctFiles(pending);
      DistinctFits(files, universe);
      ghost var before := files;
      if path in files {
        LoadingFile(fs, files, path, |universe| - |files|, files);
        return;
      }
      RoomLeft(files, universe, path);
      Record(path, pending);
      DistinctFiles(if path in fs then pending + {path} else pending);
      DistinctFits(files, universe);
      ReachesSelf(fs, path);
      assert files[|before|] == path;
      if path !in fs {
        LoadingFile(fs, before, path, |universe| - |before|, files);
        return;
      }
      assert path !in pending;
      var stmts := fs[path];
      var i := 0;
      LoadingNothing(fs, files, stmts, |universe| - |before|);
      while i < |stmts|
        invariant 0 <= i <= |stmts| && Valid(pending + {path}) && before + [path] <= files && old(order) <= order
        invariant forall f :: f in before ==> f in files
        invariant forall f :: f in files ==> f in universe && (f in before || Reaches(fs, path, f))
        invariant forall j :: 0 <= j < i && stmts[j].Import? && stmts[j].dep.Some? ==> stmts[j].dep.value in files
        invariant LoadsTo(fs, before + [path], stmts[..i], |universe| - |before|, files)
      {
        ghost var sofar := files;
        if stmts[i].Import? && stmts[i].dep.Some? {
          assert Imports(fs, path, stmts[i].dep.value);
          LoadDependency(path, stmts[i].dep.value, pending, universe, before);
        }
        LoadingSnoc(fs, before + [path], stmts, i, sofar, files, |universe| - |before|, |universe| + 1 - |sofar|);
        i := i + 1;
      }
      assert files[|before|] == path && stmts[..i] == stmts;
      LoadingFile(fs, before, path, |universe| - |before|, files);
      Collect(path, stmts, pending);
    }

    lemma {:induction false} DistinctFiles(pending: set<string>)
      requires Valid(pending)
      ensures Distinct(files)
    {
    }

    method LoadDependency(path: string, dep: string, ghost pending: set<string>, ghost universe: set<string>, ghost before: seq<string>)
      requires Valid(pending + {path}) && |universe| <= MAX_FILES && Closed(fs, universe) && Imports(fs, path, dep) && path in universe
      requires before + [path] <= files && forall f :: f in files ==> f in universe && (f in before || Reaches(fs, path, f))
      requires forall p :: p in pending ==> p in files && Reaches(fs, p, path)
      modifies this
      ensures Valid(pending + {path}) && old(files) <= files && old(order) <= order && dep in files
      ensures forall f :: f in files ==> f in universe && (f in before || Reaches(fs, path, f))
      ensures FileLoadsTo(fs, old(files), dep, |universe| + 1 - |old(files)|, files)
      decreases |universe| - |files|, 1
    {
      hide Valid, Reaches, Loading;
      assert files[|before|] == path;
      ReachesSelf(fs, path);
      forall p | p in pending + {path}
        ensures p in files && Reaches(fs, p, dep)
      {
        ReachesThen(fs, p, path, dep);
      }
      LoadFile(dep, pending + {path}, universe);
      forall f | f in files && f !in old(files)
        ensures Reaches(fs, path, f)
      {
        ReachesVia(fs, path, dep, f);
      }
    }

    /** Second pass: the statements that are not imports. */
    method Collect(path: string, stmts: seq<Stmt>, ghost pending: set<string>)
      requires Valid(pending + {path}) && path in fs && stmts == fs[path] && path in files && path !in pending
      requires forall p :: p in pending ==> Reaches(fs, p, path)
      requires forall j :: 0 <= j < |stmts| && stmts[j].Import? && stmts[j].dep.Some? ==> stmts[j].dep.value in files
      modifies this`out, this`order
      ensures Valid(pending) && order == old(order) + [path]
    {
      hide Reaches;
      Append(stmts);
      order := order + [path];
      assert order[..|order| - 1] == old(order);
      ReachesSelf(fs, path);
      forall d | Imports(fs, path, d)
        ensures d in files && (d in fs ==> d in old(order) || Reaches(fs, d, path))
      {
        var j :| 0 <= j < |stmts| && stmts[j] == Import(Some(d));
      }
      OneMoreFile(fs, old(order), path);
    }

    method Append(stmts: seq<Stmt>)
      modifies this`out
      ensures out == old(out) + Others(stmts)
    {
      var i := 0;
      assert stmts[0..] == stmts;
      while i < |stmts|
        invariant 0 <= i <= |stmts| && out + Others(stmts[i..]) == old(out) + Others(stmts)
      {
        assert stmts[i..][1..] == stmts[i + 1..];
        if !stmts[i].Import? { out := out + [stmts[i]]; }
        i := i + 1;
      }
    }
  }

  lemma {:induction false} LoadingNothing(fs: Files, files: seq<string>, stmts: seq<Stmt>, room: int)
    ensures LoadsTo(fs, files, stmts[..0], room, files)
  {
  }

  /** The three ways a file is done with. */
  lemma {:induction false} LoadingFile(fs: Files, files: seq<string>, path: string, room: nat, after: seq<string>)
    requires
      if path in files then after == files
      else |files| < MAX_FILES && if path in fs then LoadsTo(fs, files + [path], fs[path], room, after) else after == files + [path]
    ensures FileLoadsTo(fs, files, path, room + 1, after)
  {
    forall n: nat | n >= room + 1
      ensures Loading(fs, files, path, n) == Some(after)
    {
      if path !in files && path in fs { assert LoadingImports(fs, files + [path], fs[path], n - 1) == Some(after); }
    }
  }

  lemma {:induction false} LoadingSnoc(fs: Files, files: seq<string>, stmts: seq<Stmt>, i: nat, sofar: seq<string>, after: seq<string>, room: int, rest: int)
    requires i < |stmts| && |files| <= |sofar| && LoadsTo(fs, files, stmts[..i], room, sofar)
    requires if stmts[i].Import? && stmts[i].dep.Some? then rest <= room && FileLoadsTo(fs, sofar, stmts[i].dep.value, rest, after) else after == sofar
    ensures LoadsTo(fs, files, stmts[..i + 1], room, after)
  {
    var longer := stmts[..i + 1];
    assert longer[..|longer| - 1] == stmts[..i] && longer[|longer| - 1] == stmts[i];
    forall n: nat | n >= room
      ensures LoadingImports(fs, files, longer, n) == Some(after)
    {
      assert LoadingImports(fs, files, stmts[..i], n) == Some(sofar);
      assert OneImport(fs, sofar, stmts[i], n) == Some(after);
    }
  }

  // ----- beyond 64 paths -----

  /** A chain of n imports from a file, none of whose importers is recorded. */
  ghost predicate FreshChain(fs: Files, files: seq<string>, f: string, n: nat, chain: seq<string>) {
    |chain| == n + 1 && ImportPath(fs, chain) && chain[0] == f && forall i :: 0 <= i < n ==> chain[i] !in files
  }

  /** Once the table is full, nothing more is recorded, and loading nests deeper than n exactly when there
      is a chain of n imports through unrecorded files. */
  lemma {:induction false} FullTableDepth(fs: Files, files: seq<string>, path: string, n: nat)
    requires |files| >= MAX_FILES
    ensures Loading(fs, files, path, n) == None <==> exists chain :: FreshChain(fs, files, path, n, chain)
    ensures Loading(fs, files, path, n).Some? ==> Loading(fs, files, path, n).value == files
    decreases n, 0
  {
    if n == 0 {
      assert FreshChain(fs, files, path, 0, [path]);
    } else if path !in files && path in fs {
      FullTableImports(fs, files, path, fs[path], n - 1);
      if Loading(fs, files, path, n) == None {
        var d, chain :| Imports(fs, path, d) && FreshChain(fs, files, d, n - 1, chain);
        ChainLonger(fs, files, path, d, n - 1, chain);
      }
      forall chain | FreshChain(fs, files, path, n, chain)
        ensures Loading(fs, files, path, n) == None
      {
        assert Imports(fs, chain[0], chain[1]);
        ChainRest(fs, files, path, n, chain);
      }
    } else {
      forall chain | FreshChain(fs, files, path, n, chain)
        ensures false
      {
        ChainStarts(fs, files, path, n, chain);
      }
    }
  }

  lemma {:induction false} ChainStarts(fs: Files, files: seq<string>, path: string, n: nat, chain: seq<string>)
    requires n > 0 && FreshChain(fs, files, path, n, chain)
    ensures path !in files && path in fs
  {
    assert Imports(fs, chain[0], chain[1]);
  }

  lemma {:induction false} ChainLonger(fs: Files, files: seq<string>, path: string, d: string, n: nat, chain: seq<string>)
    requires Imports(fs, path, d) && path !in files && FreshChain(fs, files, d, n, chain)
    ensures FreshChain(fs, files, path, n + 1, [path] + chain)
  {
    var longer := [path] + chain;
    forall i | 0 <= i < |longer| - 1
      ensures Imports(fs, longer[i], longer[i + 1])
    {
      if i > 0 { assert Imports(fs, chain[i - 1], chain[i]); }
    }
  }

  lemma {:induction false} ChainRest(fs: Files, files: seq<string>, path: string, n: nat, chain: seq<string>)
    requires n > 0 && FreshChain(fs, files, path, n, chain)
    ensures FreshChain(fs, files, chain[1], n - 1, chain[1..])
  {
    forall i | 0 <= i < |chain[1..]| - 1
      ensures Imports(fs, chain[1..][i], chain[1..][i + 1])
    {
      assert Imports(fs, chain[i + 1], chain[i + 2]);
    }
  }

  lemma {:induction false} FullTableImports(fs: Files, files: seq<string>, path: string, stmts: seq<Stmt>, n: nat)
    requires |files| >= MAX_FILES && path in fs && stmts <= fs[path]
    ensures LoadingImports(fs, files, stmts, n) == None <==>
            exists d, chain :: Import(Some(d)) in stmts && FreshChain(fs, files, d, n, chain)
    ensures LoadingImports(fs, files, stmts, n).Some? ==> LoadingImports(fs, files, stmts, n).value == files
    decreases n, 1, |stmts|
  {
    hide Loading, FreshChain;
    if stmts != [] {
      var front, last := stmts[..|stmts| - 1], stmts[|stmts| - 1];
      FullTableImports(fs, files, path, front, n);
      assert stmts == front + [last];
      if last.Import? && last.dep.Some? { FullTableDepth(fs, files, last.dep.value, n); }
    }
  }

  /** A circle of imports among unrecorded files is then never left. */
  lemma {:induction false} CircleNeverEnds(fs: Files, files: seq<string>, circle: seq<string>, n: nat)
    requires |files| >= MAX_FILES && |circle| > 1 && ImportPath(fs, circle) && circle[0] == circle[|circle| - 1]
    requires forall i :: 0 <= i < |circle| ==> circle[i] !in files
    ensures Loading(fs, files, circle[0], n) == None
  {
    var round := |circle| - 1;
    var chain := seq(n + 1, i requires 0 <= i => circle[i % round]);
    forall i | 0 <= i < n
      ensures Imports(fs, chain[i], chain[i + 1])
    {
      assert Imports(fs, circle[i % round], circle[i % round + 1]);
      NextInCircle(i, round);
    }
    assert FreshChain(fs, files, circle[0], n, chain);
    FullTableDepth(fs, files, circle[0], n);
  }

  lemma {:induction false} NextInCircle(i: nat, round: nat)
    requires round > 0
    ensures (i + 1) % round == if i % round + 1 == round then 0 else i % round + 1
  {
    if i % round + 1 == round {
      ModUnique(i + 1, round, i / round + 1, 0);
    } else {
      ModUnique(i + 1, round, i / round, i % round + 1);
    }
  }

  // ----- without circles -----

  /** Loading nests no deeper than the imports of some chain, whatever is recorded. */
  lemma {:induction false} DeepChain(fs: Files, files: seq<string>, path: string, n: nat) returns (chain: seq<string>)
    requires Loading(fs, files, path, n) == None
    ensures |chain| == n + 1 && ImportPath(fs, chain) && chain[0] == path
    decreases n, 0
  {
    if n == 0 {
      chain := [path];
    } else {
      var recorded := if |files| < MAX_FILES then files + [path] else files;
      var rest := DeepImports(fs, recorded, path, fs[path], n - 1);
      chain := [path] + rest;
      forall i | 0 <= i < |chain| - 1
        ensures Imports(fs, chain[i], chain[i + 1])
      {
        if i > 0 { assert Imports(fs, rest[i - 1], rest[i]); }
      }
    }
  }

  lemma {:induction false} DeepImports(fs: Files, files: seq<string>, path: string, stmts: seq<Stmt>, n: nat) returns (chain: seq<string>)
    requires path in fs && stmts <= fs[path] && LoadingImports(fs, files, stmts, n) == None
    ensures |chain| == n + 1 && ImportPath(fs, chain) && Imports(fs, path, chain[0])
    decreases n, 1, |stmts|
  {
    hide Loading;
    var front, last := stmts[..|stmts| - 1], stmts[|stmts| - 1];
    var sofar := LoadingImports(fs, files, front, n);
    if sofar == None {
      chain := DeepImports(fs, files, path, front, n);
    } else {
      chain := DeepChain(fs, sofar.value, last.dep.value, n);
      assert last in fs[path];
    }
  }

  lemma {:induction false} ChainReaches(fs: Files, chain: seq<string>, i: nat, j: nat)
    requires ImportPath(fs, chain) && i <= j < |chain|
    ensures Reaches(fs, chain[i], chain[j])
  {
    var part := chain[i..j + 1];
    forall k | 0 <= k < |part| - 1
      ensures Imports(fs, part[k], part[k + 1])
    {
      assert Imports(fs, chain[i + k], chain[i + k + 1]);
    }
    assert ImportPath(fs, part);
  }

  /** A chain of imports without a circle visits every importer once. */
  lemma {:induction false} AcyclicChain(fs: Files, chain: seq<string>)
    requires Acyclic(fs) && ImportPath(fs, chain)
    ensures |chain| - 1 <= |fs|
  {
    hide Reaches;
    var importers := chain[..|chain| - 1];
    forall i, j | 0 <= i < j < |importers|
      ensures importers[i] != importers[j]
    {
      assert Imports(fs, chain[i], chain[i + 1]);
      ChainReaches(fs, chain, i + 1, j);
    }
    forall f | f in importers
      ensures f in fs.Keys
    {
      var i :| 0 <= i < |importers| && importers[i] == f;
      assert Imports(fs, chain[i], chain[i + 1]);
    }
    DistinctFits(importers, fs.Keys);
  }

  /** However many paths there are, and whatever is recorded already, loading ends without circular imports. */
  lemma {:induction false} AcyclicEnds(fs: Files, files: seq<string>, path: string, n: nat)
    requires Acyclic(fs) && n > |fs|
    ensures Loading(fs, files, path, n).Some?
  {
    hide Acyclic, ImportPath, Loading;
    if Loading(fs, files, path, n) == None {
      var chain := DeepChain(fs, files, path, n);
      AcyclicChain(fs, chain);
    }
  }

  /** The table holds 64 paths, readable or not: a program that names 63 files and then a file that imports
      itself is loaded for ever. */
  const CIRCULAR: Files := map["m" := NumberImports(63) + [Import(Some("x"))], "x" := [Import(Some("x"))]]

  function NumberImports(n: nat): (ss: seq<Stmt>)
    ensures |ss| == n
  {
    if n == 0 then [] else NumberImports(n - 1) + [Import(Some(Decimal(n - 1)))]
  }

  ghost function Numbers(n: nat): (names: seq<string>)
    ensures |names| == n
  {
    if n == 0 then [] else Numbers(n - 1) + [Decimal(n - 1)]
  }

  lemma {:induction false} NumbersFresh(n: nat, k: nat)
    requires n <= k
    ensures Decimal(k) !in Numbers(n) && "m" !in Numbers(n) && "x" !in Numbers(n)
    ensures Decimal(k) != "m" && Decimal(k) != "x"
  {
    DecimalReads(k);
    assert '0' <= Decimal(k)[0] <= '9';
    if n > 0 {
      NumbersFresh(n - 1, n - 1);
      NumbersFresh(n - 1, k);
      DecimalReads(n - 1);
    }
  }

  lemma {:induction false} MissingFile(fs: Files, files: seq<string>, path: string, depth: nat)
    requires depth > 0 && path !in files && path !in fs && |files| < MAX_FILES
    ensures Loading(fs, files, path, depth) == Some(files + [path])
  {
  }

  lemma {:induction false} NumbersRecorded(n: nat, depth: nat)
    requires n <= 63 && depth > 0
    ensures LoadingImports(CIRCULAR, ["m"], NumberImports(n), depth) == Some(["m"] + Numbers(n))
  {
    hide Decimal, DigitChar, Loading;
    if n == 0 {
      assert ["m"] + Numbers(0) == ["m"];
    } else {
      NumbersRecorded(n - 1, depth);
      NumbersFresh(n - 1, n - 1);
      var ss, d := NumberImports(n), Decimal(n - 1);
      assert ss[..|ss| - 1] == NumberImports(n - 1) && ss[|ss| - 1] == Import(Some(d));
      MissingFile(CIRCULAR, ["m"] + Numbers(n - 1), d, depth);
      assert ["m"] + Numbers(n - 1) + [d] == ["m"] + Numbers(n);
    }
  }

  lemma {:induction false} CircularNeverEnds(depth: nat)
    ensures Loading(CIRCULAR, [], "m", depth) == None
  {
    if depth > 0 {
      hide Decimal, Numbers, NumberImports;
      var front := NumberImports(63);
      var ss := front + [Import(Some("x"))];
      assert ss[..|ss| - 1] == front && [] + ["m"] == ["m"] && "m" in CIRCULAR && CIRCULAR["m"] == ss;
      if depth > 1 {
        NumbersRecorded(63, depth - 1);
        NumbersFresh(63, 63);
        var files := ["m"] + Numbers(63);
        assert CIRCULAR["x"][0] == Import(Some("x"));
        assert Imports(CIRCULAR, "x", "x");
        CircleNeverEnds(CIRCULAR, files, ["x", "x"], depth - 1);
        assert OneImport(CIRCULAR, files, Import(Some("x")), depth - 1) == None;
      } else {
        assert forall files :: OneImport(CIRCULAR, files, Import(Some("x")), 0) == None;
      }
    }
  }

  lemma {:induction false} OneMoreFile(fs: Files, order: seq<string>, path: string)
    requires DependenciesFirst(fs, order)
    requires forall d :: Imports(fs, path, d) && d in fs ==> d in order || Reaches(fs, d, path)
    ensures DependenciesFirst(fs, order + [path])
  {
    var longer := order + [path];
    forall j, d | 0 <= j < |longer| && Imports(fs, longer[j], d) && d in fs
      ensures d in longer[..j] || Reaches(fs, d, longer[j])
    {
      if j < |order| {
        assert longer[..j] == order[..j] && longer[j] == order[j];
      } else {
        assert longer[..j] == order;
      }
    }
  }

  lemma {:induction false} RoomLeft(files: seq<string>, universe: set<string>, path: string)
    requires Distinct(files) && path in universe && path !in files && forall f :: f in files ==> f in universe
    ensures |files| < |universe|
  {
    DistinctFits(files, universe - {path});
  }

  function Members(s: seq<string>): set<string> { set f | f in s }

  /** The statements of exactly the parseable files that the entry reaches, each file once, in this order,
      dependencies first; of each file the statements that are not imports, each as often as it stands there. */
  ghost predicate Merges(fs: Files, entry: string, order: seq<string>, out: seq<Stmt>) {
    && Distinct(order) && (forall f :: f in order <==> f in fs && Reaches(fs, entry, f))
    && DependenciesFirst(fs, order) && (exists starts, kept :: FileByFile(fs, order, out, starts, kept))
    && forall s :: multiset(out)[s] == if s.Import? then 0 else Occurrences(fs, order, s)
  }

  /** The whole program. When at most 64 paths can come up, loading ends, even with circular imports, and
      emits exactly the parseable files that the entry reaches, each once, dependencies first. */
  method Load(fs: Files, entry: string, ghost universe: set<string>) returns (out: seq<Stmt>)
    requires |universe| <= MAX_FILES && Closed(fs, universe) && entry in universe
    ensures exists order :: Merges(fs, entry, order, out)
  {
    var loader := new Loader(fs);
    loader.LoadFile(entry, {}, universe);
    out := loader.out;
    ghost var order := loader.order;
    ghost var loaded := Members(loader.files);
    forall f, d | f in loaded && Imports(fs, f, d)
      ensures d in loaded
    {
      assert f in order;
    }
    forall f | Reaches(fs, entry, f)
      ensures f in loaded
    {
      var path :| ImportPath(fs, path) && path[0] == entry && path[|path| - 1] == f;
      ClosedContains(fs, loaded, path);
    }
    ghost var starts, kept := EmittedFileByFile(fs, order);
    forall s
      ensures multiset(out)[s] == if s.Import? then 0 else Occurrences(fs, order, s)
    {
      EmittedCount(fs, order, s);
    }
    assert Merges(fs, entry, order, out);
  }

  /** Without circular imports every dependency comes strictly before its importer. */
  lemma {:induction false} AcyclicOrder(fs: Files, order: seq<string>, j: nat, d: string)
    requires Acyclic(fs) && DependenciesFirst(fs, order) && j < |order| && Imports(fs, order[j], d) && d in fs
    ensures d in order[..j]
  {
  }
}
