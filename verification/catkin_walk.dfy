/** The catkin generation, buildfarm/dependency_walker.py lines 81-111 and
    162-174: first-level (or recursive) dependencies of a package.xml, with a
    package's dependency on itself pruned, and the table of debianized names
    handed to Jenkins. */
module CatkinWalk {
  import opened Results
  import Naming
  import Text

  /** A parsed package.xml: its name and the names of its declared
      dependencies of each kind. */
  datatype Package = Package(
    name: string,
    buildDepends: seq<string>,
    buildtoolDepends: seq<string>,
    runDepends: seq<string>)

  /** The only exception the walk raises: the recursion limit was reached. */
  datatype DependsError = RecursionError

  // ----- prune_self_depends (lines 81-87)

  /** `prune_self_depends(packages, package)` with the collection enumerated in
      the order `xs`: the loop stops at the first element named like the
      package and removes it. */
  function PruneSelfDepends(xs: seq<Package>, self: string): (r: seq<Package>)
    ensures |r| == |xs| || |r| == |xs| - 1
  {
    if xs == [] then []
    else if xs[0].name == self then xs[1..]
    else [xs[0]] + PruneSelfDepends(xs[1..], self)
  }

  /** Nothing changes when no element is named like the package. */
  lemma {:induction false} PruneSelfDependsNoMatch(xs: seq<Package>, self: string)
    requires forall i :: 0 <= i < |xs| ==> xs[i].name != self
    ensures PruneSelfDepends(xs, self) == xs
  {
    if xs != [] {
      assert forall i :: 0 <= i < |xs[1..]| ==> xs[1..][i] == xs[i + 1];
      PruneSelfDependsNoMatch(xs[1..], self);
      assert xs == [xs[0]] + xs[1..];
    }
  }

  /** Exactly the first element named like the package is removed; the
      others keep their order. */
  lemma {:induction false} PruneSelfDependsRemovesFirst(xs: seq<Package>, self: string, k: int)
    requires 0 <= k < |xs| && xs[k].name == self
    requires forall j :: 0 <= j < k ==> xs[j].name != self
    ensures PruneSelfDepends(xs, self) == xs[..k] + xs[k + 1..]
  {
    if k > 0 {
      var tail := xs[1..];
      assert tail[k - 1].name == self;
      assert forall j :: 0 <= j < k - 1 ==> tail[j].name != self by {
        forall j | 0 <= j < k - 1
          ensures tail[j].name != self
        {
          assert tail[j] == xs[j + 1];
        }
      }
      PruneSelfDependsRemovesFirst(tail, self, k - 1);
      calc {
        PruneSelfDepends(xs, self);
        [xs[0]] + PruneSelfDepends(tail, self);
        [xs[0]] + (tail[..k - 1] + tail[k..]);
        { assert [xs[0]] + tail[..k - 1] == xs[..k]; assert tail[k..] == xs[k + 1..]; }
        xs[..k] + xs[k + 1..];
      }
    }
  }

  /** As multisets, pruning loses the one element it removes and nothing else. */
  lemma PruneSelfDependsMultiset(xs: seq<Package>, self: string, k: int)
    requires 0 <= k < |xs| && xs[k].name == self
    requires forall j :: 0 <= j < k ==> xs[j].name != self
    ensures multiset(PruneSelfDepends(xs, self)) + multiset{xs[k]} == multiset(xs)
  {
    PruneSelfDependsRemovesFirst(xs, self, k);
    assert xs == xs[..k] + [xs[k]] + xs[k + 1..];
  }

  /** The elements of a set not named like the package. */
  function WithoutSelf(s: set<Package>, self: string): set<Package>
  {
    set p | p in s && p.name != self
  }

  /** When at most one element of a collection is named like the package,
      pruning any enumeration of it leaves exactly the elements not named like
      the package, whatever the enumeration order: the set-level behaviour used
      at lines 99 and 107. */
  lemma PruneSelfDependsOnSet(xs: seq<Package>, self: string)
    requires forall i, j :: 0 <= i < |xs| && 0 <= j < |xs| && xs[i].name == self && xs[j].name == self ==> i == j
    ensures (set p | p in PruneSelfDepends(xs, self)) == WithoutSelf((set p | p in xs), self)
  {
    if k :| 0 <= k < |xs| && xs[k].name == self {
      assert forall j :: 0 <= j < k ==> xs[j].name != self;
      PruneSelfDependsRemovesFirst(xs, self, k);
      var r := PruneSelfDepends(xs, self);
      forall p | p in r
        ensures p in xs && p.name != self
      {
        var j :| 0 <= j < |r| && r[j] == p;
        if j < k {
          assert p == xs[j];
        } else {
          assert p == xs[j + 1];
        }
      }
      forall p | p in xs && p.name != self
        ensures p in r
      {
        var j :| 0 <= j < |xs| && xs[j] == p;
        if j < k {
          assert r[j] == p;
        } else {
          assert r[j - 1] == p;
        }
      }
    } else {
      PruneSelfDependsNoMatch(xs, self);
    }
  }

  // ----- _get_depends (lines 94-111)

  /** No two distinct packages of the dict share a name. Lines 99 and 107 then
      remove the same elements whatever order the set is enumerated in; the dict
      of line 144, keyed by package name, has this property. */
  predicate UniqueNames(packages: map<string, Package>)
  {
    forall a, b :: a in packages && b in packages && packages[a].name == packages[b].name ==> packages[a] == packages[b]
  }

  /** The names a package declares for one kind of walk: build and buildtool
      dependencies, or run dependencies (lines 95-98). */
  function Declared(package: Package, buildtime: bool): seq<string>
  {
    if buildtime then package.buildDepends + package.buildtoolDepends else package.runDepends
  }

  /** `immediate_depends` of lines 95-99: the packages of the declared names
      that are keys of the dict, without the package's own name. */
  function Immediate(packages: map<string, Package>, package: Package, buildtime: bool): (r: set<Package>)
    ensures forall d :: d in r <==>
              d.name != package.name && exists n :: n in Declared(package, buildtime) && n in packages && packages[n] == d
  {
    WithoutSelf(set n | n in Declared(package, buildtime) && n in packages :: packages[n], package.name)
  }

  /** The walk of one dependency at lines 105-106 raises, or there is no frame
      left to make the call in. */
  predicate ChildRaises(packages: map<string, Package>, d: Package, buildtime: bool, depth: nat)
    requires UniqueNames(packages)
    decreases depth, 0
  {
    depth == 0 || Depends(packages, d, true, buildtime, depth - 1).Err?
  }

  /** What the walk of one dependency at line 106 adds to `result`, or nothing
      when it raises. */
  function Walked(packages: map<string, Package>, d: Package, buildtime: bool, depth: nat): (r: set<Package>)
    requires UniqueNames(packages)
    decreases depth, 4
  {
    var w := Depends(packages, d, true, buildtime, depth);
    if w.Ok? then w.value else {}
  }

  /** `_get_depends(packages, package, recursive, buildtime)` with `depth` frames
      of recursion left. Every dependency whose own name is a key of the dict is
      walked in turn (lines 104-107); nothing remembers what was visited, so a
      cycle longer than a self-loop ends in `RecursionError`. */
  function Depends(packages: map<string, Package>, package: Package, recursive: bool, buildtime: bool, depth: nat)
    : (r: Result<set<Package>, DependsError>)
    requires UniqueNames(packages)
    ensures r.Ok? ==> r.value <= packages.Values
    ensures r.Ok? ==> forall d :: d in r.value ==> d.name != package.name
    decreases depth, 3
  {
    var immediate := Immediate(packages, package, buildtime);
    if !recursive then Ok(immediate)
    else if exists d :: d in immediate && d.name in packages && ChildRaises(packages, d, buildtime, depth)
    then Err(RecursionError)
    else
      // every package a walk can return is a value of the dict (see the
      // contract), so drawing `x` from the values loses nothing
      var deeper := set x | x in packages.Values &&
                            exists d :: d in immediate && d.name in packages && x in Walked(packages, d, buildtime, depth - 1);
      Ok(WithoutSelf(immediate + deeper, package.name))
  }

  /** Without recursion the result is the immediate dependencies: the packages
      of the declared names that are keys of the dict, minus the package. */
  lemma FirstLevelDepends(packages: map<string, Package>, package: Package, buildtime: bool, depth: nat)
    requires UniqueNames(packages)
    ensures var r := Depends(packages, package, false, buildtime, depth);
            && r.Ok?
            && forall d :: d in r.value <==>
                 d.name != package.name && exists n :: n in Declared(package, buildtime) && n in packages && packages[n] == d
  {
  }

  /** The recursive walk raises exactly when the walk of some immediate
      dependency does; otherwise it is the immediate dependencies together with
      everything their walks return, minus the package itself, and so contains
      the first-level result. */
  lemma RecursiveDepends(packages: map<string, Package>, package: Package, buildtime: bool, depth: nat)
    requires UniqueNames(packages)
    ensures var r := Depends(packages, package, true, buildtime, depth);
            var immediate := Immediate(packages, package, buildtime);
            && (r.Err? <==> exists d :: d in immediate && d.name in packages && ChildRaises(packages, d, buildtime, depth))
            && (r.Ok? ==> immediate <= r.value)
            && (r.Ok? ==> forall x :: x in r.value <==>
                  x.name != package.name &&
                  (x in immediate ||
                   exists d :: d in immediate && d.name in packages && x in Walked(packages, d, buildtime, depth - 1)))
  {
  }

  /** Every collection `_get_depends` prunes holds values of the dict only.
      Then at most one element is named like the package, and pruning any
      duplicate-free enumeration of it leaves exactly the elements not named
      like the package. */
  lemma PruneOnDictValues(packages: map<string, Package>, s: set<Package>, xs: seq<Package>, self: string)
    requires UniqueNames(packages)
    requires s <= packages.Values
    requires forall i, j :: 0 <= i < j < |xs| ==> xs[i] != xs[j]
    requires (set p | p in xs) == s
    ensures (set p | p in PruneSelfDepends(xs, self)) == WithoutSelf(s, self)
  {
    forall i, j | 0 <= i < |xs| && 0 <= j < |xs| && xs[i].name == self && xs[j].name == self
      ensures i == j
    {
      assert xs[i] in s && xs[j] in s;
      var a :| a in packages && packages[a] == xs[i];
      var b :| b in packages && packages[b] == xs[j];
    }
    PruneSelfDependsOnSet(xs, self);
  }

  /** Line 99: whatever order the set of line 95 or 97 is enumerated in,
      `prune_self_depends` leaves exactly `Immediate`. */
  lemma ImmediateIsPruned(packages: map<string, Package>, package: Package, buildtime: bool, xs: seq<Package>)
    requires UniqueNames(packages)
    requires forall i, j :: 0 <= i < j < |xs| ==> xs[i] != xs[j]
    requires (set p | p in xs) == set n | n in Declared(package, buildtime) && n in packages :: packages[n]
    ensures (set p | p in PruneSelfDepends(xs, package.name)) == Immediate(packages, package, buildtime)
  {
    PruneOnDictValues(packages, (set p | p in xs), xs, package.name);
  }

  /** What the walks at line 106 return, one per dependency in the order `ds`
      the loop of line 104 takes; a dependency that is not walked adds nothing. */
  function ChildResults(packages: map<string, Package>, ds: seq<Package>, buildtime: bool, depth: nat)
    : (r: seq<set<Package>>)
    requires UniqueNames(packages)
    ensures |r| == |ds|
    ensures forall i :: 0 <= i < |ds| && ds[i].name in packages && depth > 0 ==>
              r[i] == Walked(packages, ds[i], buildtime, depth - 1)
    ensures forall i :: 0 <= i < |ds| && !(ds[i].name in packages && depth > 0) ==> r[i] == {}
  {
    if ds == [] then []
    else
      var head := if ds[0].name in packages && depth > 0 then Walked(packages, ds[0], buildtime, depth - 1) else {};
      var rest := ChildResults(packages, ds[1..], buildtime, depth);
      assert forall i :: 0 < i < |ds| ==> ds[i] == ds[1..][i - 1] && ([head] + rest)[i] == rest[i - 1];
      [head] + rest
  }

  /** The loop of lines 104-107 at set level: `result |= ...` then the prune,
      which removes the elements named like the package (`PruneOnDictValues`). */
  function PruneLoop(result: set<Package>, subs: seq<set<Package>>, self: string): set<Package>
    decreases |subs|
  {
    if subs == [] then result
    else PruneLoop(WithoutSelf(result + subs[0], self), subs[1..], self)
  }

  /** Pruning after every union comes to the same as one prune at the end. */
  lemma {:induction false} PruneLoopCollects(result: set<Package>, subs: seq<set<Package>>, self: string)
    requires forall p :: p in result ==> p.name != self
    ensures forall x :: x in PruneLoop(result, subs, self) <==>
              x.name != self && (x in result || exists i :: 0 <= i < |subs| && x in subs[i])
    decreases |subs|
  {
    if subs != [] {
      var next := WithoutSelf(result + subs[0], self);
      PruneLoopCollects(next, subs[1..], self);
      forall x
        ensures (exists i :: 0 <= i < |subs| && x in subs[i]) <==>
                x in subs[0] || exists i :: 0 <= i < |subs[1..]| && x in subs[1..][i]
      {
        if i :| 0 <= i < |subs| && x in subs[i] {
          if i > 0 {
            assert x in subs[1..][i - 1];
          }
        }
        if i :| 0 <= i < |subs[1..]| && x in subs[1..][i] {
          assert x in subs[i + 1];
        }
      }
    }
  }

  /** The recursive `_get_depends` is the loop of lines 104-107 run over any
      enumeration `ds` of `immediate_depends`. */
  lemma DependsIsPruneLoop(
    packages: map<string, Package>, package: Package, buildtime: bool, depth: nat, ds: seq<Package>)
    requires UniqueNames(packages)
    requires Depends(packages, package, true, buildtime, depth).Ok?
    requires forall d :: d in ds <==> d in Immediate(packages, package, buildtime)
    ensures Depends(packages, package, true, buildtime, depth).value ==
              PruneLoop(Immediate(packages, package, buildtime), ChildResults(packages, ds, buildtime, depth), package.name)
  {
    var immediate := Immediate(packages, package, buildtime);
    var subs := ChildResults(packages, ds, buildtime, depth);
    var r := Depends(packages, package, true, buildtime, depth).value;
    RecursiveDepends(packages, package, buildtime, depth);
    PruneLoopCollects(immediate, subs, package.name);
    forall x
      ensures x in r <==> x in PruneLoop(immediate, subs, package.name)
    {
      if d :| d in immediate && d.name in packages && x in Walked(packages, d, buildtime, depth - 1) {
        var i :| 0 <= i < |ds| && ds[i] == d;
        assert !ChildRaises(packages, d, buildtime, depth);
        assert x in subs[i];
      }
      if i :| 0 <= i < |subs| && x in subs[i] {
        assert ds[i] in immediate;
      }
    }
  }

  /** A witness that the dependency graph of one kind is acyclic beyond
      self-loops: every step the recursion takes descends in `rank`. */
  ghost predicate Ranked(packages: map<string, Package>, buildtime: bool, rank: map<Package, nat>)
  {
    && packages.Values <= rank.Keys
    && forall a, n :: a in packages && n in Declared(packages[a], buildtime) && n in packages &&
                      packages[n].name != packages[a].name && packages[n].name in packages ==>
                        rank[packages[n]] < rank[packages[a]]
  }

  /** On an acyclic graph with enough recursion budget the recursive walk of a
      package of the dict does not raise. */
  lemma {:induction false} RankedDependsSucceeds(
    packages: map<string, Package>, package: Package, buildtime: bool, rank: map<Package, nat>, depth: nat)
    requires UniqueNames(packages)
    requires Ranked(packages, buildtime, rank)
    requires package in packages.Values && depth > rank[package]
    ensures Depends(packages, package, true, buildtime, depth).Ok?
    decreases rank[package], 1
  {
    var immediate := Immediate(packages, package, buildtime);
    forall d | d in immediate && d.name in packages
      ensures !ChildRaises(packages, d, buildtime, depth)
    {
      RankedChildSucceeds(packages, package, d, buildtime, rank, depth);
    }
    RecursiveDepends(packages, package, buildtime, depth);
  }

  /** The step of `RankedDependsSucceeds`: an immediate dependency ranks lower,
      so its walk one frame down succeeds. */
  lemma {:induction false} RankedChildSucceeds(
    packages: map<string, Package>, package: Package, d: Package, buildtime: bool, rank: map<Package, nat>, depth: nat)
    requires UniqueNames(packages)
    requires Ranked(packages, buildtime, rank)
    requires package in packages.Values && depth > rank[package]
    requires d in Immediate(packages, package, buildtime) && d.name in packages
    ensures !ChildRaises(packages, d, buildtime, depth)
    decreases rank[package], 0
  {
    var a :| a in packages && packages[a] == package;
    var n :| n in Declared(package, buildtime) && n in packages && packages[n] == d;
    assert packages[n].name != packages[a].name && packages[n].name in packages;
    assert rank[d] < rank[package];
    var below: nat := depth - 1;
    RankedDependsSucceeds(packages, d, buildtime, rank, below);
    ChildSucceeds(packages, d, buildtime, depth, below);
  }

  /** A dependency whose own walk, one frame down, succeeds does not count as raising. */
  lemma ChildSucceeds(packages: map<string, Package>, d: Package, buildtime: bool, depth: nat, below: nat)
    requires UniqueNames(packages)
    requires depth == below + 1 && Depends(packages, d, true, buildtime, below).Ok?
    ensures !ChildRaises(packages, d, buildtime, depth)
  {
  }

  /** A raising walk of an immediate dependency that is walked makes the
      whole recursive walk raise. */
  lemma ChildRaisesPropagates(
    packages: map<string, Package>, package: Package, n: string, buildtime: bool, depth: nat)
    requires UniqueNames(packages)
    requires n in Declared(package, buildtime) && n in packages
    requires packages[n].name != package.name && packages[n].name in packages
    requires ChildRaises(packages, packages[n], buildtime, depth)
    ensures Depends(packages, package, true, buildtime, depth).Err?
  {
    assert packages[n] in Immediate(packages, package, buildtime);
  }

  /** The walk of a dependency counts as raising when no frame is left for it
      or its own recursive walk, one frame deeper, raises. */
  lemma ChildRaisesAfter(packages: map<string, Package>, d: Package, buildtime: bool, depth: nat)
    requires UniqueNames(packages)
    requires depth == 0 || Depends(packages, d, true, buildtime, depth - 1).Err?
    ensures ChildRaises(packages, d, buildtime, depth)
  {
  }

  /** A raising walk of a walked dependency `d` one frame down makes the
      package's own walk count as raising. */
  lemma ChildRaisesOneUp(
    packages: map<string, Package>, package: Package, n: string, d: Package, buildtime: bool, depth: nat)
    requires UniqueNames(packages)
    requires n in Declared(package, buildtime) && n in packages && packages[n] == d
    requires d.name != package.name && d.name in packages
    requires depth > 0 && ChildRaises(packages, d, buildtime, depth - 1)
    ensures ChildRaises(packages, package, buildtime, depth)
  {
    ChildRaisesPropagates(packages, package, n, buildtime, depth - 1);
  }

  /** Two packages that run-depend on each other make every recursive walk of
      either raise, however deep the stack: nothing records what was visited. */
  lemma MutualDependencyRaises(packages: map<string, Package>, a: Package, b: Package, depth: nat)
    requires UniqueNames(packages)
    requires a.name != b.name && a.name in packages && b.name in packages
    requires packages[a.name] == a && packages[b.name] == b
    requires b.name in a.runDepends && a.name in b.runDepends
    ensures Depends(packages, a, true, false, depth).Err?
    ensures Depends(packages, b, true, false, depth).Err?
  {
    MutualChildRaises(packages, a, b, depth);
    MutualChildRaises(packages, b, a, depth);
    ChildRaisesPropagates(packages, a, b.name, false, depth);
    ChildRaisesPropagates(packages, b, a.name, false, depth);
  }

  /** The walk of either of two mutually run-depending packages counts as
      raising at every depth: at depth 0 no frame is left, and deeper the walk
      of the other one raises one frame further down. */
  lemma {:induction false} MutualChildRaises(packages: map<string, Package>, a: Package, b: Package, depth: nat)
    requires UniqueNames(packages)
    requires a.name != b.name && a.name in packages && b.name in packages
    requires packages[a.name] == a && packages[b.name] == b
    requires b.name in a.runDepends && a.name in b.runDepends
    ensures ChildRaises(packages, a, false, depth)
    decreases depth
  {
    if depth > 0 {
      MutualChildRaises(packages, b, a, depth - 1);
      ChildRaisesOneUp(packages, a, b.name, b, false, depth);
    } else {
      ChildRaisesAfter(packages, a, false, 0);
    }
  }

  // ----- get_jenkins_dependencies (lines 162-174)

  /** The dict whose sorted items are `entries`. */
  function ToMap(entries: seq<(string, Package)>): (m: map<string, Package>)
    ensures m.Keys == set i | 0 <= i < |entries| :: entries[i].0
  {
    if entries == [] then map[]
    else
      var init := entries[..|entries| - 1];
      var last := entries[|entries| - 1];
      assert forall i :: 0 <= i < |init| ==> init[i] == entries[i];
      assert (set i | 0 <= i < |entries| :: entries[i].0) == (set i | 0 <= i < |init| :: init[i].0) + {last.0};
      ToMap(init)[last.0 := last.1]
  }

  /** Each key of the rebuilt dict holds the package of the last item with
      that key; sorted items have distinct keys, so that is its own item. */
  lemma {:induction false} ToMapValues(entries: seq<(string, Package)>, i: nat)
    requires i < |entries|
    requires forall j :: i < j < |entries| ==> entries[j].0 != entries[i].0
    ensures entries[i].0 in ToMap(entries) && ToMap(entries)[entries[i].0] == entries[i].1
  {
    var init := entries[..|entries| - 1];
    if i < |init| {
      assert init[i] == entries[i];
      assert forall j :: i < j < |init| ==> init[j] == entries[j];
      ToMapValues(init, i);
      assert entries[|entries| - 1].0 != entries[i].0;
    }
  }

  /** The first-level build and run dependencies of `p` (lines 167-168, 171). */
  function FirstLevel(packages: map<string, Package>, p: Package): (r: set<Package>)
    requires UniqueNames(packages)
    ensures forall d :: d in r <==>
              d.name != p.name &&
              exists n :: n in p.buildDepends + p.buildtoolDepends + p.runDepends && n in packages && packages[n] == d
  {
    var b := Depends(packages, p, false, true, 0).value;
    var r := Depends(packages, p, false, false, 0).value;
    assert forall n :: n in p.buildDepends + p.buildtoolDepends + p.runDepends <==>
                       n in Declared(p, true) || n in Declared(p, false);
    b + r
  }

  /** The list stored at line 171 for `p`, as a set. */
  function JenkinsEntry(distro: string, packages: map<string, Package>, p: Package, deb: Naming.Debianize): set<string>
    requires UniqueNames(packages)
  {
    set d | d in FirstLevel(packages, p) :: deb(distro, d.name)
  }

  /** The list of line 171 in terms of the package's declared names: the
      debianized name of every build, buildtool or run name that is a key of
      the dict and names another package, and nothing else. */
  lemma JenkinsEntryNames(distro: string, packages: map<string, Package>, p: Package, deb: Naming.Debianize)
    requires UniqueNames(packages)
    ensures var r := JenkinsEntry(distro, packages, p, deb);
            && (forall n :: (n in p.buildDepends + p.buildtoolDepends + p.runDepends && n in packages &&
                             packages[n].name != p.name) ==> deb(distro, packages[n].name) in r)
            && (forall x :: x in r ==> exists n :: && n in p.buildDepends + p.buildtoolDepends + p.runDepends
                                                   && n in packages && packages[n].name != p.name
                                                   && x == deb(distro, packages[n].name))
  {
    var r := JenkinsEntry(distro, packages, p, deb);
    forall n | n in p.buildDepends + p.buildtoolDepends + p.runDepends && n in packages && packages[n].name != p.name
      ensures deb(distro, packages[n].name) in r
    {
      assert packages[n] in FirstLevel(packages, p);
    }
  }

  /** The loop of lines 164-172 over `items`, a prefix of the dict's sorted items. */
  function JenkinsLoop(distro: string, packages: map<string, Package>, items: seq<(string, Package)>, deb: Naming.Debianize)
    : (r: map<string, set<string>>)
    requires UniqueNames(packages)
    ensures r.Keys == set i | 0 <= i < |items| :: deb(distro, items[i].1.name)
  {
    if items == [] then map[]
    else
      var init := items[..|items| - 1];
      var p := items[|items| - 1].1;
      assert forall i :: 0 <= i < |init| ==> init[i] == items[i];
      assert (set i | 0 <= i < |items| :: deb(distro, items[i].1.name)) ==
             (set i | 0 <= i < |init| :: deb(distro, init[i].1.name)) + {deb(distro, p.name)};
      JenkinsLoop(distro, packages, init, deb)[deb(distro, p.name) := JenkinsEntry(distro, packages, p, deb)]
  }

  /** The package's debianized name is not written again by a later item. */
  predicate LastDebName(distro: string, items: seq<(string, Package)>, deb: Naming.Debianize, i: int)
    requires 0 <= i < |items|
  {
    forall j :: i < j < |items| ==> deb(distro, items[j].1.name) != deb(distro, items[i].1.name)
  }

  lemma {:induction false} JenkinsLoopValues(
    distro: string, packages: map<string, Package>, items: seq<(string, Package)>, deb: Naming.Debianize, i: int)
    requires UniqueNames(packages)
    requires 0 <= i < |items| && LastDebName(distro, items, deb, i)
    ensures JenkinsLoop(distro, packages, items, deb)[deb(distro, items[i].1.name)] == JenkinsEntry(distro, packages, items[i].1, deb)
  {
    if i < |items| - 1 {
      var init := items[..|items| - 1];
      assert init[i] == items[i];
      assert LastDebName(distro, init, deb, i) by {
        forall j | i < j < |init|
          ensures deb(distro, init[j].1.name) != deb(distro, init[i].1.name)
        {
          assert init[j] == items[j];
        }
      }
      JenkinsLoopValues(distro, packages, init, deb, i);
      var p := items[|items| - 1].1;
      assert deb(distro, p.name) != deb(distro, items[i].1.name);
      JenkinsLoopLast(distro, packages, items, deb, init, p);
    } else {
      JenkinsLoopLast(distro, packages, items, deb, items[..|items| - 1], items[i].1);
    }
  }

  /** The loop over `items` is the loop over all items but the last, then one
      more write for the last item's package `p`. */
  lemma JenkinsLoopLast(
    distro: string, packages: map<string, Package>, items: seq<(string, Package)>, deb: Naming.Debianize,
    init: seq<(string, Package)>, p: Package)
    requires UniqueNames(packages)
    requires items != [] && init == items[..|items| - 1] && p == items[|items| - 1].1
    ensures JenkinsLoop(distro, packages, items, deb) ==
            JenkinsLoop(distro, packages, init, deb)[deb(distro, p.name) := JenkinsEntry(distro, packages, p, deb)]
  {
  }

  /** `get_jenkins_dependencies(rosdistro, packages)` over the dict's items in
      sorted order: one key per package, its debianized name; under it the
      debianized names of its first-level build and run dependencies, the last
      package in sorted order winning when two debianized names coincide. */
  function JenkinsDependencies(distro: string, entries: seq<(string, Package)>, deb: Naming.Debianize)
    : (r: map<string, set<string>>)
    requires Text.SortedItems(entries)
    requires UniqueNames(ToMap(entries))
    ensures r.Keys == set i | 0 <= i < |entries| :: deb(distro, entries[i].1.name)
    ensures forall i :: 0 <= i < |entries| && LastDebName(distro, entries, deb, i) ==>
              r[deb(distro, entries[i].1.name)] == JenkinsEntry(distro, ToMap(entries), entries[i].1, deb)
  {
    var packages := ToMap(entries);
    forall i | 0 <= i < |entries| && LastDebName(distro, entries, deb, i)
      ensures JenkinsLoop(distro, packages, entries, deb)[deb(distro, entries[i].1.name)] ==
              JenkinsEntry(distro, packages, entries[i].1, deb)
    {
      JenkinsLoopValues(distro, packages, entries, deb, i);
    }
    JenkinsLoop(distro, packages, entries, deb)
  }

  /** Every key of the loop's table holds the entry of some item with that
      debianized name. */
  lemma {:induction false} JenkinsLoopEveryValue(
    distro: string, packages: map<string, Package>, items: seq<(string, Package)>, deb: Naming.Debianize)
    requires UniqueNames(packages)
    ensures forall k :: k in JenkinsLoop(distro, packages, items, deb) ==>
              exists i :: 0 <= i < |items| && deb(distro, items[i].1.name) == k &&
                          JenkinsLoop(distro, packages, items, deb)[k] == JenkinsEntry(distro, packages, items[i].1, deb)
  {
    if items != [] {
      var init := items[..|items| - 1];
      var p := items[|items| - 1].1;
      JenkinsLoopEveryValue(distro, packages, init, deb);
      var r := JenkinsLoop(distro, packages, items, deb);
      var rest := JenkinsLoop(distro, packages, init, deb);
      assert r == rest[deb(distro, p.name) := JenkinsEntry(distro, packages, p, deb)];
      assert forall i :: 0 <= i < |init| ==> init[i] == items[i];
      forall k | k in r
        ensures exists i :: 0 <= i < |items| && deb(distro, items[i].1.name) == k &&
                            r[k] == JenkinsEntry(distro, packages, items[i].1, deb)
      {
        if k != deb(distro, p.name) {
          assert k in rest && r[k] == rest[k];
          var i :| 0 <= i < |init| && deb(distro, init[i].1.name) == k &&
                   rest[k] == JenkinsEntry(distro, packages, init[i].1, deb);
          assert items[i] == init[i];
        } else {
          var i := |items| - 1;
          assert deb(distro, items[i].1.name) == k && r[k] == JenkinsEntry(distro, packages, items[i].1, deb);
        }
      }
    }
  }

  /** No first-level dependency of a package carries the package's own name
      (lines 99 and 171), whatever the debianize rule. */
  lemma FirstLevelExcludesSelf(packages: map<string, Package>, p: Package)
    requires UniqueNames(packages)
    ensures forall d :: d in FirstLevel(packages, p) ==> d.name != p.name
  {
  }

  /** No package is listed as its own dependency: when debianizing keeps
      distinct names distinct, no key of the table appears in its own list. */
  lemma NoSelfDependency(distro: string, entries: seq<(string, Package)>, deb: Naming.Debianize)
    requires Text.SortedItems(entries)
    requires UniqueNames(ToMap(entries))
    requires forall a, b :: deb(distro, a) == deb(distro, b) ==> a == b
    ensures var r := JenkinsDependencies(distro, entries, deb);
            forall k :: k in r ==> k !in r[k]
  {
    var packages := ToMap(entries);
    var r := JenkinsDependencies(distro, entries, deb);
    JenkinsLoopEveryValue(distro, packages, entries, deb);
    forall k | k in r
      ensures k !in r[k]
    {
      var i :| 0 <= i < |entries| && deb(distro, entries[i].1.name) == k &&
               r[k] == JenkinsEntry(distro, packages, entries[i].1, deb);
    }
  }
}
