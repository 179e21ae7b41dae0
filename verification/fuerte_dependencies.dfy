/** `get_dependencies` of the fuerte generation, buildfarm/dependency_walker_fuerte.py
    lines 95-123: build the three aligned tables from the fetched stacks, then
    give every package its dependency names.

    As written, line 119 passes `build_deps`, a set of already translated names,
    where `_get_dependencies` expects the name table. The runtime part of a
    package is therefore empty when none of its own runtime names is one of
    those translated names, and the call raises `TypeError` as soon as one is. */
module FuerteDependencies {
  import opened Results
  import Naming
  import Text
  import FuerteStacks
  import opened FuerteWalk

  /** The three dicts of lines 96-98, keyed alike. */
  datatype Tables = Tables(
    packages: map<string, string>,
    build: map<string, seq<string>>,
    runtime: map<string, seq<string>>)
  {
    predicate Aligned()
    {
      packages.Keys == build.Keys && build.Keys == runtime.Keys
    }
  }

  type Entry = (string, Option<FuerteStacks.Stack>)

  /** The key an entry is filed under: the catalog name for a missing stack,
      the stack's own name otherwise (lines 104, 108-109). */
  function KeyOf(entry: Entry): string
  {
    match entry.1
    case None => entry.0
    case Some(s) => s.name
  }

  /** The loop body of lines 101-111. */
  function AddEntry(t: Tables, distro: string, entry: Entry, deb: Naming.Debianize, san: Naming.Sanitize): Tables
  {
    match entry.1
    case None =>
      Tables(t.packages[entry.0 := san(entry.0)], t.build[entry.0 := []], t.runtime[entry.0 := []])
    case Some(s) =>
      Tables(t.packages[s.name := deb(distro, s.name)], t.build[s.name := s.buildDepends], t.runtime[s.name := s.depends])
  }

  /** `t` files `entry` as lines 103-111 say. */
  predicate Records(t: Tables, distro: string, entry: Entry, deb: Naming.Debianize, san: Naming.Sanitize)
  {
    var k := KeyOf(entry);
    && k in t.packages && k in t.build && k in t.runtime
    && match entry.1
       case None => t.packages[k] == san(k) && t.build[k] == [] && t.runtime[k] == []
       case Some(s) => t.packages[k] == deb(distro, s.name) && t.build[k] == s.buildDepends && t.runtime[k] == s.depends
  }

  /** One pass of the loop body files the entry in all three tables under its
      key, keeps the tables aligned, and leaves every other key as it was. */
  lemma AddEntryFiles(t: Tables, distro: string, entry: Entry, deb: Naming.Debianize, san: Naming.Sanitize)
    ensures var r := AddEntry(t, distro, entry, deb, san);
            && Records(r, distro, entry, deb, san)
            && (t.Aligned() ==> r.Aligned())
            && (forall k :: k in t.packages && k != KeyOf(entry) ==> k in r.packages && r.packages[k] == t.packages[k])
            && (forall k :: k in t.build && k != KeyOf(entry) ==> k in r.build && r.build[k] == t.build[k])
            && (forall k :: k in t.runtime && k != KeyOf(entry) ==> k in r.runtime && r.runtime[k] == t.runtime[k])
  {
  }

  /** The keys of all entries. */
  function EntryKeys(entries: seq<Entry>): set<string>
  {
    set i | 0 <= i < |entries| :: KeyOf(entries[i])
  }

  /** No later entry is filed under the same key. */
  predicate LastKeyed(entries: seq<Entry>, i: int)
    requires 0 <= i < |entries|
  {
    forall j :: i < j < |entries| ==> KeyOf(entries[j]) != KeyOf(entries[i])
  }

  /** Lines 96-111 over the entries in order. The three tables share the key
      set, which is the set of entry keys. */
  function BuildTables(distro: string, entries: seq<Entry>, deb: Naming.Debianize, san: Naming.Sanitize): (t: Tables)
    ensures t.Aligned()
    ensures t.packages.Keys == EntryKeys(entries)
  {
    if entries == [] then Tables(map[], map[], map[])
    else
      var init := entries[..|entries| - 1];
      var last := entries[|entries| - 1];
      assert EntryKeys(entries) == EntryKeys(init) + {KeyOf(last)} by {
        assert forall i :: 0 <= i < |init| ==> init[i] == entries[i];
      }
      AddEntry(BuildTables(distro, init, deb, san), distro, last, deb, san)
  }

  /** Every entry not overwritten by a later one of the same key is filed as
      lines 103-111 say: a missing stack under its catalog name, sanitized, with
      no dependencies; a present one under its own name, debianized, with its
      declared build and run dependency names. */
  lemma {:induction false} BuildTablesRecords(
    distro: string, entries: seq<Entry>, deb: Naming.Debianize, san: Naming.Sanitize, i: int)
    requires 0 <= i < |entries| && LastKeyed(entries, i)
    ensures Records(BuildTables(distro, entries, deb, san), distro, entries[i], deb, san)
  {
    var init := entries[..|entries| - 1];
    var last := entries[|entries| - 1];
    var t0 := BuildTables(distro, init, deb, san);
    assert BuildTables(distro, entries, deb, san) == AddEntry(t0, distro, last, deb, san);
    AddEntryFiles(t0, distro, last, deb, san);
    if i < |init| {
      assert init[i] == entries[i];
      assert LastKeyed(init, i) by {
        forall j | i < j < |init|
          ensures KeyOf(init[j]) != KeyOf(init[i])
        {
          assert init[j] == entries[j];
        }
      }
      BuildTablesRecords(distro, init, deb, san, i);
    }
  }

  /** One enumeration of `packages.keys()` (line 115): each key exactly once.
      The dict order of the interpreter is not part of the model; no contract
      below depends on which enumeration this is. */
  function KeyOrder(entries: seq<Entry>): (ks: seq<string>)
    ensures forall k :: k in ks <==> k in EntryKeys(entries)
    ensures forall i, j :: 0 <= i < j < |ks| ==> ks[i] != ks[j]
  {
    if entries == [] then []
    else
      var init := entries[..|entries| - 1];
      var k := KeyOf(entries[|entries| - 1]);
      var ks := KeyOrder(init);
      assert EntryKeys(entries) == EntryKeys(init) + {k} by {
        assert forall i :: 0 <= i < |init| ==> init[i] == entries[i];
      }
      if k in ks then ks else ks + [k]
  }

  /** `build_deps` of line 117: the canonical names of k's build dependencies
      that are catalog keys. */
  function DirectBuild(t: Tables, k: string): set<string>
    requires k in t.build
  {
    set p | p in t.build[k] && p in t.packages :: t.packages[p]
  }

  /** The non-recursive walk of line 117 over the name table succeeds with
      exactly `DirectBuild`, whatever recursion budget is left. */
  lemma DirectBuildIsWalk(t: Tables, k: string, depth: nat)
    requires k in t.build
    ensures Walk(t.build, k, AsDict(t.packages), false, depth) == Ok(DirectBuild(t, k))
  {
    var r := Direct(t.build[k], AsDict(t.packages));
    assert r.value == DirectBuild(t, k) by {
      forall x | x in DirectBuild(t, k)
        ensures x in r.value
      {
        var p :| p in t.build[k] && p in t.packages && t.packages[p] == x;
      }
    }
  }

  /** One of k's own runtime names is also one of its translated build
      dependency names: line 88 then subscripts the set passed at line 119. */
  predicate RuntimeHit(t: Tables, k: string)
    requires k in t.build && k in t.runtime
  {
    exists r :: r in t.runtime[k] && r in DirectBuild(t, k)
  }

  /** The value line 121 stores for k when nothing raised: the translated build
      dependencies, debianized once more. */
  function Combined(t: Tables, distro: string, deb: Naming.Debianize, k: string): set<string>
    requires k in t.build
  {
    set d | d in DirectBuild(t, k) :: deb(distro, d)
  }

  /** Lines 117-121 for one key: the non-recursive walk over the name table,
      then the recursive walk over the translated names as a set. It raises
      `TypeError` exactly on a runtime hit and otherwise yields the translated
      build dependencies, debianized: the runtime walk adds nothing. */
  function AssembleOne(t: Tables, distro: string, deb: Naming.Debianize, k: string)
    : (r: Result<set<string>, WalkError>)
    requires t.Aligned() && k in t.packages
    ensures r.Err? <==> RuntimeHit(t, k)
    ensures r.Err? ==> r.error == TypeError
    ensures r.Ok? ==> r.value == Combined(t, distro, deb, k)
  {
    var buildDeps := Walk(t.build, k, AsDict(t.packages), false, RecursionLimit);
    DirectBuildIsWalk(t, k, RecursionLimit);
    match buildDeps
    case Err(e) => Err(e)
    case Ok(bd) =>
      WalkOverSet(t.runtime, k, bd, true, RecursionLimit);
      match Walk(t.runtime, k, AsSet(bd), true, RecursionLimit)
      case Err(e) => Err(e)
      case Ok(rrd) =>
        assert bd + rrd == DirectBuild(t, k);
        Ok(set d | d in bd + rrd :: deb(distro, d))
  }

  /** The loop of lines 115-122 over the keys in `order`. */
  function Assemble(t: Tables, distro: string, deb: Naming.Debianize, order: seq<string>)
    : (r: Result<map<string, set<string>>, WalkError>)
    requires t.Aligned()
    requires forall i :: 0 <= i < |order| ==> order[i] in t.packages
    ensures r.Err? <==> exists i :: 0 <= i < |order| && RuntimeHit(t, order[i])
    ensures r.Err? ==> r.error == TypeError
  {
    if order == [] then Ok(map[])
    else
      var init := order[..|order| - 1];
      var k := order[|order| - 1];
      assert (exists i :: 0 <= i < |order| && RuntimeHit(t, order[i])) <==>
             (exists i :: 0 <= i < |init| && RuntimeHit(t, init[i])) || RuntimeHit(t, k) by {
        assert forall i :: 0 <= i < |init| ==> init[i] == order[i];
      }
      match Assemble(t, distro, deb, init)
      case Err(e) => Err(e)
      case Ok(result) =>
        match AssembleOne(t, distro, deb, k)
        case Err(e) => Err(e)
        case Ok(v) => Ok(result[t.packages[k] := v])
  }

  /** The result has one entry per canonical name of the keys in `order`. */
  lemma {:induction false} AssembleKeys(t: Tables, distro: string, deb: Naming.Debianize, order: seq<string>)
    requires t.Aligned()
    requires forall i :: 0 <= i < |order| ==> order[i] in t.packages
    ensures var r := Assemble(t, distro, deb, order);
            r.Ok? ==> r.value.Keys == set i | 0 <= i < |order| :: t.packages[order[i]]
  {
    if order != [] {
      var init := order[..|order| - 1];
      assert forall i :: 0 <= i < |init| ==> init[i] == order[i];
      AssembleKeys(t, distro, deb, init);
      assert (set i | 0 <= i < |order| :: t.packages[order[i]]) ==
             (set i | 0 <= i < |init| :: t.packages[init[i]]) + {t.packages[order[|order| - 1]]};
    }
  }

  /** Under the canonical name of every key in `order` the result holds the
      translated build dependencies of some key with that canonical name, at
      or after it in `order` (the last one written wins). Nothing of the
      runtime dependencies ever reaches the result. */
  lemma {:induction false} AssembleValues(t: Tables, distro: string, deb: Naming.Debianize, order: seq<string>, i: int)
    requires t.Aligned()
    requires forall i :: 0 <= i < |order| ==> order[i] in t.packages
    requires 0 <= i < |order|
    ensures var r := Assemble(t, distro, deb, order);
            r.Ok? ==> exists j :: i <= j < |order| && t.packages[order[j]] == t.packages[order[i]] &&
                                  t.packages[order[i]] in r.value &&
                                  r.value[t.packages[order[i]]] == Combined(t, distro, deb, order[j])
  {
    var init := order[..|order| - 1];
    var k := order[|order| - 1];
    assert forall i :: 0 <= i < |init| ==> init[i] == order[i];
    var r := Assemble(t, distro, deb, order);
    if r.Ok? {
      AssembleLast(t, distro, deb, order, init, k);
      if t.packages[k] != t.packages[order[i]] {
        AssembleValues(t, distro, deb, init, i);
      } else {
        assert r.value[t.packages[order[i]]] == Combined(t, distro, deb, k);
      }
    }
  }

  /** A successful loop is the loop over all keys but the last, then one more
      iteration for the last key. */
  lemma AssembleLast(t: Tables, distro: string, deb: Naming.Debianize, order: seq<string>, init: seq<string>, k: string)
    requires t.Aligned()
    requires forall i :: 0 <= i < |order| ==> order[i] in t.packages
    requires order != [] && init == order[..|order| - 1] && k == order[|order| - 1]
    requires Assemble(t, distro, deb, order).Ok?
    ensures forall i :: 0 <= i < |init| ==> init[i] in t.packages
    ensures k in t.packages && Assemble(t, distro, deb, init).Ok? && AssembleOne(t, distro, deb, k).Ok?
    ensures Assemble(t, distro, deb, order).value ==
              Assemble(t, distro, deb, init).value[t.packages[k] := AssembleOne(t, distro, deb, k).value]
  {
    assert forall i :: 0 <= i < |init| ==> init[i] == order[i];
  }

  /** The canonical names of an enumeration of the keys are the table's values. */
  lemma OrderImage(t: Tables, order: seq<string>)
    requires forall k :: k in order <==> k in t.packages
    ensures (set i | 0 <= i < |order| :: t.packages[order[i]]) == t.packages.Values
  {
    forall v | v in t.packages.Values
      ensures v in (set i | 0 <= i < |order| :: t.packages[order[i]])
    {
      var k :| k in t.packages && t.packages[k] == v;
      var i :| 0 <= i < |order| && order[i] == k;
    }
  }

  lemma HitInOrder(t: Tables, order: seq<string>)
    requires t.Aligned()
    requires forall k :: k in order <==> k in t.packages
    ensures (exists k :: k in t.packages && RuntimeHit(t, k)) <==> exists i :: 0 <= i < |order| && RuntimeHit(t, order[i])
  {
    if k :| k in t.packages && RuntimeHit(t, k) {
      var i :| 0 <= i < |order| && order[i] == k;
    }
    if i :| 0 <= i < |order| && RuntimeHit(t, order[i]) {
      assert order[i] in order;
    }
  }

  /** `get_dependencies(rosdistro, stacks)` over the dict's items in sorted
      order: it raises `TypeError` exactly when some package has a runtime name
      equal to one of its translated build dependency names, and otherwise
      has one entry per canonical package name. */
  function GetDependencies(distro: string, stacks: seq<Entry>, deb: Naming.Debianize, san: Naming.Sanitize)
    : (r: Result<map<string, set<string>>, WalkError>)
    requires Text.SortedItems(stacks)
    ensures var t := BuildTables(distro, stacks, deb, san);
            && (r.Err? <==> exists k :: k in t.packages && RuntimeHit(t, k))
            && (r.Err? ==> r.error == TypeError)
            && (r.Ok? ==> r.value.Keys == t.packages.Values)
  {
    var t := BuildTables(distro, stacks, deb, san);
    var order := KeyOrder(stacks);
    AssembleKeys(t, distro, deb, order);
    OrderImage(t, order);
    var r := Assemble(t, distro, deb, order);
    HitInOrder(t, order);
    assert r.Err? <==> exists i :: 0 <= i < |order| && RuntimeHit(t, order[i]);
    assert t == BuildTables(distro, stacks, deb, san);
    assert r.Err? <==> exists k :: k in t.packages && RuntimeHit(t, k);
    r
  }

  /** Under the canonical name of every package, a successful result holds the
      debianized translated build dependencies of a package with that
      canonical name; when no two packages share a canonical name, of that
      very package. */
  lemma GetDependenciesValues(distro: string, stacks: seq<Entry>, deb: Naming.Debianize, san: Naming.Sanitize, k: string)
    requires Text.SortedItems(stacks)
    requires k in BuildTables(distro, stacks, deb, san).packages
    ensures var t := BuildTables(distro, stacks, deb, san);
            var r := GetDependencies(distro, stacks, deb, san);
            r.Ok? ==> exists k' :: k' in t.packages && t.packages[k'] == t.packages[k] &&
                                   r.value[t.packages[k]] == Combined(t, distro, deb, k')
  {
    var t := BuildTables(distro, stacks, deb, san);
    var order := KeyOrder(stacks);
    var i :| 0 <= i < |order| && order[i] == k;
    AssembleValues(t, distro, deb, order, i);
  }

  /** No canonical name is shared by two keys. */
  predicate Injective(m: map<string, string>)
  {
    forall a, b :: a in m && b in m && m[a] == m[b] ==> a == b
  }

  /** With distinct canonical names, a successful result holds, for each
      package, exactly its debianized translated build dependencies. */
  lemma GetDependenciesInjective(distro: string, stacks: seq<Entry>, deb: Naming.Debianize, san: Naming.Sanitize, k: string)
    requires Text.SortedItems(stacks)
    requires Injective(BuildTables(distro, stacks, deb, san).packages)
    requires k in BuildTables(distro, stacks, deb, san).packages
    ensures var t := BuildTables(distro, stacks, deb, san);
            var r := GetDependencies(distro, stacks, deb, san);
            r.Ok? ==> r.value[t.packages[k]] == Combined(t, distro, deb, k)
  {
    GetDependenciesValues(distro, stacks, deb, san, k);
  }

  // ----- The combination the comments of lines 114 and 118 describe

  /** Direct build dependencies plus the recursive runtime dependencies of
      those build dependencies, each build dependency walked over the name
      table with `depth` frames of recursion: `_get_dependencies(runtime_dependencies,
      b, packages, True)` for every catalog key `b` among k's build dependencies. */
  function IntendedDependencies(t: Tables, distro: string, deb: Naming.Debianize, k: string, depth: nat)
    : (r: Result<set<string>, WalkError>)
    requires k in t.build
  {
    match WalkEach(t.runtime, Kept(t.build[k], AsDict(t.packages)), AsDict(t.packages), depth + 1)
    case Err(e) => Err(e)
    case Ok(rrd) => Ok(set d | d in DirectBuild(t, k) + rrd :: deb(distro, d))
  }

  /** Whenever the intended combination succeeds it keeps everything the code
      as written stores for `k`, and adds only canonical names of catalog keys,
      debianized. */
  lemma IntendedExtendsAsWritten(t: Tables, distro: string, deb: Naming.Debianize, k: string, depth: nat)
    requires k in t.build
    ensures var r := IntendedDependencies(t, distro, deb, k, depth);
            r.Ok? ==> && Combined(t, distro, deb, k) <= r.value
                      && forall x :: x in r.value ==> exists q :: q in t.packages && x == deb(distro, t.packages[q])
  {
    var r := IntendedDependencies(t, distro, deb, k, depth);
    if r.Ok? {
      var rrd := WalkEach(t.runtime, Kept(t.build[k], AsDict(t.packages)), AsDict(t.packages), depth + 1).value;
      assert rrd <= t.packages.Values;
      forall x | x in r.value
        ensures exists q :: q in t.packages && x == deb(distro, t.packages[q])
      {
        var d :| d in DirectBuild(t, k) + rrd && x == deb(distro, d);
        var q :| q in t.packages && t.packages[q] == d;
      }
    }
  }

  /** The catalog keys a package needs to be built: its build dependencies and
      everything they reach through runtime dependencies. */
  ghost predicate NeededToBuild(t: Tables, k: string, q: string)
    requires k in t.build
  {
    q in t.packages &&
    (q in t.build[k] || exists b :: b in t.build[k] && b in t.packages && Reaches(t.runtime, t.packages, b, q))
  }

  ghost function NeededKeys(t: Tables, k: string): set<string>
    requires k in t.build
  {
    set q | q in t.packages && NeededToBuild(t, k, q)
  }

  /** The translated build dependencies together with the reachable images of
      the build dependencies are the canonical names of the needed keys. */
  lemma NeededNames(t: Tables, k: string, rrd: set<string>)
    requires k in t.build
    requires forall x :: x in rrd <==>
               exists p :: p in Kept(t.build[k], AsDict(t.packages)) && x in ReachableImage(t.runtime, t.packages, p)
    ensures DirectBuild(t, k) + rrd == set q | q in NeededKeys(t, k) :: t.packages[q]
  {
    var pl := t.packages;
    var kept := Kept(t.build[k], AsDict(pl));
    var names := DirectBuild(t, k) + rrd;
    forall x | x in names
      ensures exists q :: q in NeededKeys(t, k) && pl[q] == x
    {
      if x in rrd {
        var p :| p in kept && x in ReachableImage(t.runtime, pl, p);
        var q :| q in pl && Reaches(t.runtime, pl, p, q) && pl[q] == x;
        assert NeededToBuild(t, k, q);
      } else {
        var q :| q in t.build[k] && q in pl && pl[q] == x;
        assert NeededToBuild(t, k, q);
      }
    }
    forall q | q in NeededKeys(t, k)
      ensures pl[q] in names
    {
      if q !in t.build[k] {
        var b :| b in t.build[k] && b in pl && Reaches(t.runtime, pl, b, q);
        assert b in kept;
        assert pl[q] in ReachableImage(t.runtime, pl, b);
      }
    }
  }

  lemma ImageOfImage(m: map<string, string>, keys: set<string>, names: set<string>, distro: string, deb: Naming.Debianize)
    requires keys <= m.Keys
    requires names == set q | q in keys :: m[q]
    ensures (set d | d in names :: deb(distro, d)) == set q | q in keys :: deb(distro, m[q])
  {
    var lhs := set d | d in names :: deb(distro, d);
    forall y | y in lhs
      ensures exists q :: q in keys && deb(distro, m[q]) == y
    {
      var d :| d in names && deb(distro, d) == y;
      var q :| q in keys && m[q] == d;
    }
  }

  /** On an acyclic runtime graph with enough recursion budget the intended
      combination succeeds and holds the debianized canonical names of exactly
      the keys needed to build `k`. */
  lemma IntendedIsBuildPlusRuntimeClosure(
    t: Tables, distro: string, deb: Naming.Debianize, k: string, rank: map<string, nat>, depth: nat)
    requires t.Aligned() && k in t.build
    requires Ranked(t.runtime, t.packages, rank)
    requires forall q :: q in rank ==> rank[q] < depth
    ensures IntendedDependencies(t, distro, deb, k, depth) ==
              Ok(set q | q in NeededKeys(t, k) :: deb(distro, t.packages[q]))
  {
    var pl := t.packages;
    var kept := Kept(t.build[k], AsDict(pl));
    var up: nat := depth + 1;
    RuntimeWalksAreReachable(t.runtime, kept, pl, rank, up);
    var rrd := WalkEach(t.runtime, kept, AsDict(pl), up).value;
    IntendedUnfold(t, distro, deb, k, depth, up, rrd);
    NeededNames(t, k, rrd);
    ImageOfImage(pl, NeededKeys(t, k), DirectBuild(t, k) + rrd, distro, deb);
  }

  /** When the runtime walks succeed with `rrd`, the intended combination is
      the build dependencies plus `rrd`, debianized. */
  lemma IntendedUnfold(
    t: Tables, distro: string, deb: Naming.Debianize, k: string, depth: nat, up: nat, rrd: set<string>)
    requires k in t.build && up == depth + 1
    requires WalkEach(t.runtime, Kept(t.build[k], AsDict(t.packages)), AsDict(t.packages), up) == Ok(rrd)
    ensures IntendedDependencies(t, distro, deb, k, depth) == Ok(set d | d in DirectBuild(t, k) + rrd :: deb(distro, d))
  {
  }

  /** On an acyclic runtime graph, the recursive runtime walks of catalog keys
      `kept` succeed with the union of their reachable images. */
  lemma RuntimeWalksAreReachable(
    dd: DependencyDict, kept: seq<string>, pl: map<string, string>, rank: map<string, nat>, depth: nat)
    requires pl.Keys <= dd.Keys && forall p :: p in kept ==> p in pl
    requires Ranked(dd, pl, rank)
    requires depth > 0 && forall q :: q in rank ==> rank[q] < depth - 1
    ensures WalkEach(dd, kept, AsDict(pl), depth).Ok?
    ensures forall x :: x in WalkEach(dd, kept, AsDict(pl), depth).value <==>
                          exists p :: p in kept && x in ReachableImage(dd, pl, p)
  {
    var below: nat := depth - 1;
    forall p | p in kept
      ensures Walk(dd, p, AsDict(pl), true, below) == Ok(ReachableImage(dd, pl, p))
    {
      RecursiveWalkIsReachability(dd, p, pl, rank, below);
    }
    WalkEachIsUnion(dd, kept, pl, depth, below);
  }

  lemma DirectBuildOfOne(t: Tables, k: string, p: string)
    requires k in t.build && t.build[k] == [p] && p in t.packages
    ensures DirectBuild(t, k) == {t.packages[p]}
  {
    assert t.packages[p] in DirectBuild(t, k);
  }

  /** The debianize rule used by the examples below. */
  function ExampleDeb(distro: string, name: string): string
  {
    distro + "-" + name
  }

  /** Catalog P (no release, so a sanitized placeholder), Q runtime-depending
      on P, R build-depending on Q. */
  function ExampleTables(): Tables
  {
    Tables(
      map["P" := "P", "Q" := "fuerte-Q", "R" := "fuerte-R"],
      map["P" := [], "Q" := [], "R" := ["Q"]],
      map["P" := [], "Q" := ["P"], "R" := []])
  }

  /** The example catalog is aligned and acyclic: R build-depends on Q, which
      run-depends on P, and the ranks P < Q < R witness that no runtime cycle exists. */
  lemma ExampleTablesShape(t: Tables, rank: map<string, nat>)
    requires t == ExampleTables() && rank == map["P" := 0, "Q" := 1, "R" := 2]
    ensures t.Aligned() && "R" in t.build && "Q" in t.build["R"] && "Q" in t.packages
    ensures "Q" in t.runtime && "P" in t.runtime["Q"] && "P" in t.packages
    ensures Ranked(t.runtime, t.packages, rank) && forall n :: n in rank ==> rank[n] <= 2
  {
    assert t.runtime.Keys == rank.Keys;
    assert t.build["R"][0] == "Q" && t.runtime["Q"][0] == "P";
  }

  /** In the example catalog no key has a runtime hit, and R combines to the
      debianized name of Q alone. */
  lemma ExampleCombined(t: Tables, order: seq<string>)
    requires t == ExampleTables() && order == ["P", "Q", "R"]
    ensures t.Aligned()
    ensures forall i :: 0 <= i < |order| ==> order[i] in t.packages && !RuntimeHit(t, order[i])
    ensures t.packages["R"] == "fuerte-R"
    ensures Combined(t, "fuerte", ExampleDeb, "R") == {"fuerte-fuerte-Q"}
  {
    DirectBuildOfOne(t, "R", "Q");
    assert DirectBuild(t, "P") == {} && DirectBuild(t, "Q") == {};
    assert !RuntimeHit(t, "P") && !RuntimeHit(t, "Q") && !RuntimeHit(t, "R");
    assert ExampleDeb("fuerte", "fuerte-Q") == "fuerte-fuerte-Q";
    assert Combined(t, "fuerte", ExampleDeb, "R") == {"fuerte-fuerte-Q"} by {
      assert "fuerte-fuerte-Q" in Combined(t, "fuerte", ExampleDeb, "R");
      forall d | d in Combined(t, "fuerte", ExampleDeb, "R")
        ensures d == "fuerte-fuerte-Q"
      {
      }
    }
  }

  /** As written, R gets only its build dependency Q: the runtime dependency P
      of Q, which building R needs, is missing. */
  lemma AsWrittenDropsRuntimeOfBuildDeps()
    ensures var r := Assemble(ExampleTables(), "fuerte", ExampleDeb, ["P", "Q", "R"]);
            && r.Ok?
            && r.value["fuerte-R"] == {"fuerte-fuerte-Q"}
            && "fuerte-P" !in r.value["fuerte-R"]
  {
    var t := ExampleTables();
    var order := ["P", "Q", "R"];
    ExampleCombined(t, order);
    AssembleValues(t, "fuerte", ExampleDeb, order, 2);
  }

  /** For the same catalog the intended combination gives R the runtime
      dependency P of its build dependency Q. */
  lemma IntendedKeepsRuntimeOfBuildDeps(t: Tables, depth: nat)
    requires t == ExampleTables() && depth > 2
    ensures IntendedDependencies(t, "fuerte", ExampleDeb, "R", depth).Ok?
    ensures "fuerte-P" in IntendedDependencies(t, "fuerte", ExampleDeb, "R", depth).value
  {
    var rank := map["P" := 0, "Q" := 1, "R" := 2];
    ExampleTablesShape(t, rank);
    IntendedHasRuntimeOfBuildDep(t, "fuerte", ExampleDeb, "R", "Q", "P", rank, depth);
    assert ExampleDeb("fuerte", t.packages["P"]) == "fuerte-P";
  }

  /** On an acyclic runtime graph with enough budget, the intended combination
      for `k` holds every runtime dependency `q` of every build dependency `b`. */
  lemma IntendedHasRuntimeOfBuildDep(
    t: Tables, distro: string, deb: Naming.Debianize, k: string, b: string, q: string,
    rank: map<string, nat>, depth: nat)
    requires t.Aligned() && k in t.build && b in t.build[k] && b in t.packages
    requires q in t.runtime[b] && q in t.packages
    requires Ranked(t.runtime, t.packages, rank)
    requires forall n :: n in rank ==> rank[n] < depth
    ensures IntendedDependencies(t, distro, deb, k, depth).Ok?
    ensures deb(distro, t.packages[q]) in IntendedDependencies(t, distro, deb, k, depth).value
  {
    IntendedIsBuildPlusRuntimeClosure(t, distro, deb, k, rank, depth);
    assert NeededToBuild(t, k, q) by {
      assert ReachesIn(t.runtime, t.packages, b, q, 1);
    }
    assert q in NeededKeys(t, k);
  }

  /** As written, a package that both build- and run-depends on a placeholder
      whose sanitized name is unchanged makes the whole call raise `TypeError`:
      line 88 subscripts the set passed at line 119. The intended combination
      succeeds. */
  lemma AsWrittenRaisesOnSharedDependency(depth: nat)
    requires depth > 1
    ensures var t := Tables(map["P" := "P", "Q" := "fuerte-Q"], map["P" := [], "Q" := ["P"]], map["P" := [], "Q" := ["P"]]);
            && Assemble(t, "fuerte", ExampleDeb, ["P", "Q"]) == Err(TypeError)
            && IntendedDependencies(t, "fuerte", ExampleDeb, "Q", depth).Ok?
  {
    var t := Tables(map["P" := "P", "Q" := "fuerte-Q"], map["P" := [], "Q" := ["P"]], map["P" := [], "Q" := ["P"]]);
    DirectBuildOfOne(t, "Q", "P");
    assert RuntimeHit(t, "Q");
    var order := ["P", "Q"];
    assert order[1] == "Q";
    var rank := map["P" := 0, "Q" := 1];
    assert Ranked(t.runtime, t.packages, rank);
    IntendedIsBuildPlusRuntimeClosure(t, "fuerte", ExampleDeb, "Q", rank, depth);
  }
}
