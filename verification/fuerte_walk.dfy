/** `_get_dependencies` of the fuerte (stack) generation,
    buildfarm/dependency_walker_fuerte.py lines 87-92.

    The walk keeps the raw names of `dependency_dict[package_name]` that are
    members of `package_list`, maps them through it, and in recursive mode adds
    the walk of every kept name. Nothing remembers visited names: on a cycle the
    recursion only stops at Python's recursion limit, modelled as a `depth`
    budget whose exhaustion is a `RecursionError`. */
module FuerteWalk {
  import opened Results

  /** Python's default recursion limit (`sys.getrecursionlimit()`). */
  const RecursionLimit: nat := 1000

  /** Raw dependency names declared per package key. */
  type DependencyDict = map<string, seq<string>>

  /** What callers pass as `package_list`: a dict from key to canonical name
      (line 117), or a set of names, which supports `in` but not subscripting
      (line 119). */
  datatype PackageList = AsDict(names: map<string, string>) | AsSet(members: set<string>)
  {
    /** `p in package_list` */
    predicate Has(p: string)
    {
      if AsDict? then p in names else p in members
    }
  }

  datatype WalkError =
    | KeyError(key: string)   // `dependency_dict[package_name]` is missing
    | TypeError               // a set was subscripted
    | RecursionError          // the recursion limit was reached

  /** The list built at line 90: the names of `ps` that are in `pl`, in order. */
  function Kept(ps: seq<string>, pl: PackageList): (r: seq<string>)
    ensures |r| <= |ps|
    ensures forall p :: p in r <==> p in ps && pl.Has(p)
  {
    if ps == [] then []
    else (if pl.Has(ps[0]) then [ps[0]] else []) + Kept(ps[1..], pl)
  }

  lemma KeptNothing(ps: seq<string>, pl: PackageList)
    requires forall p :: p in ps ==> !pl.Has(p)
    ensures Kept(ps, pl) == []
  {
  }

  /** The set comprehension of line 88, evaluated as its generator runs: name
      by name, skipping the names not in `pl`. A kept name is subscripted: over
      a dict that adds its canonical name, over a set it raises. */
  function Direct(ps: seq<string>, pl: PackageList): (r: Result<set<string>, WalkError>)
    ensures pl.AsDict? ==> r.Ok?
    ensures pl.AsDict? ==> forall p :: p in ps && p in pl.names ==> pl.names[p] in r.value
    ensures pl.AsDict? ==> forall x :: x in r.value ==> exists p :: p in ps && p in pl.names && pl.names[p] == x
    ensures pl.AsSet? ==> (r.Err? <==> exists p :: p in ps && p in pl.members)
    ensures pl.AsSet? ==> r == Err(TypeError) || r == Ok({})
  {
    if ps == [] then Ok({})
    else
      var rest := Direct(ps[1..], pl);
      assert forall p :: p in ps <==> p == ps[0] || p in ps[1..];
      if !pl.Has(ps[0]) then rest
      else
        match pl
        case AsSet(_) => Err(TypeError)
        case AsDict(m) => Ok({m[ps[0]]} + rest.value)
  }

  /** `_get_dependencies(dependency_dict, package_name, package_list, recursive)`
      with `depth` frames of recursion left. */
  function Walk(dd: DependencyDict, name: string, pl: PackageList, recursive: bool, depth: nat)
    : (r: Result<set<string>, WalkError>)
    ensures name !in dd ==> r == Err(KeyError(name))
    ensures pl.AsDict? && r.Ok? ==> r.value <= pl.names.Values
    ensures name in dd && !recursive ==> r == Direct(dd[name], pl)
    decreases depth, 1, 0
  {
    if name !in dd then Err(KeyError(name))
    else
      var direct := Direct(dd[name], pl);
      if direct.Err? || !recursive then direct
      else Union(direct, WalkEach(dd, Kept(dd[name], pl), pl, depth))
  }

  /** `a.update(b)` after both were computed, `a` first: the first exception wins. */
  function Union(a: Result<set<string>, WalkError>, b: Result<set<string>, WalkError>)
    : (r: Result<set<string>, WalkError>)
  {
    if a.Err? then a else if b.Err? then b else Ok(a.value + b.value)
  }

  /** The loop of lines 90-91: walk every name of `ps` recursively, one frame
      deeper, and union the results; the first exception propagates. */
  function WalkEach(dd: DependencyDict, ps: seq<string>, pl: PackageList, depth: nat)
    : (r: Result<set<string>, WalkError>)
    ensures pl.AsDict? && r.Ok? ==> r.value <= pl.names.Values
    ensures ps == [] ==> r == Ok({})
    decreases depth, 0, |ps|
  {
    if ps == [] then Ok({})
    else if depth == 0 then Err(RecursionError)
    else Union(Walk(dd, ps[0], pl, true, depth - 1), WalkEach(dd, ps[1..], pl, depth))
  }

  /** Over a set (line 119) the walk raises `TypeError` exactly when some raw
      name of the entry is a member of the set, and otherwise yields nothing:
      the recursion of line 91 is never reached. */
  lemma WalkOverSet(dd: DependencyDict, name: string, members: set<string>, recursive: bool, depth: nat)
    requires name in dd
    ensures var r := Walk(dd, name, AsSet(members), recursive, depth);
            && (r.Err? <==> exists p :: p in dd[name] && p in members)
            && (r == Err(TypeError) || r == Ok({}))
  {
    var pl := AsSet(members);
    if Direct(dd[name], pl).Ok? && recursive {
      KeptNothing(dd[name], pl);
      var direct := Direct(dd[name], pl).value;
      assert WalkEach(dd, [], pl, depth) == Ok({});
      assert direct + {} == {};
    }
  }

  /** The recursive result contains the non-recursive one (line 91 only adds). */
  lemma RecursiveExtendsDirect(dd: DependencyDict, name: string, pl: PackageList, depth: nat)
    ensures Walk(dd, name, pl, true, depth).Ok? ==>
              Walk(dd, name, pl, false, depth).Ok? &&
              Walk(dd, name, pl, false, depth).value <= Walk(dd, name, pl, true, depth).value
  {
  }

  // ----- Reachability through catalog keys, the reference the walk is measured against

  /** One step of the walk: `b` is a raw dependency of `a` that is a catalog key. */
  ghost predicate Edge(dd: DependencyDict, pl: map<string, string>, a: string, b: string)
  {
    a in dd && b in dd[a] && b in pl
  }

  /** `b` is reached from `a` in exactly `n` steps. */
  ghost predicate ReachesIn(dd: DependencyDict, pl: map<string, string>, a: string, b: string, n: nat)
    decreases n
  {
    if n <= 1 then n == 1 && Edge(dd, pl, a, b)
    else exists c :: Edge(dd, pl, a, c) && ReachesIn(dd, pl, c, b, n - 1)
  }

  /** `b` is reached from `a` in one or more steps. */
  ghost predicate Reaches(dd: DependencyDict, pl: map<string, string>, a: string, b: string)
  {
    exists n: nat :: ReachesIn(dd, pl, a, b, n)
  }

  /** The canonical names of every key reachable from `a`. */
  ghost function ReachableImage(dd: DependencyDict, pl: map<string, string>, a: string): set<string>
  {
    set b | b in pl && Reaches(dd, pl, a, b) :: pl[b]
  }

  /** A witness that the graph is acyclic: every step descends in `rank`. */
  ghost predicate Ranked(dd: DependencyDict, pl: map<string, string>, rank: map<string, nat>)
  {
    && dd.Keys <= rank.Keys
    && forall a, b :: a in dd && b in dd[a] && b in pl && b in dd ==> rank[b] < rank[a]
  }

  /** Reaching `b` from `a` is a first step to `b`, or a first step to some `c`
      followed by reaching `b` from `c`. */
  lemma ReachesUnfold(dd: DependencyDict, pl: map<string, string>, a: string, b: string)
    ensures Reaches(dd, pl, a, b) <==>
              Edge(dd, pl, a, b) || exists c :: Edge(dd, pl, a, c) && Reaches(dd, pl, c, b)
  {
    if Reaches(dd, pl, a, b) {
      var n: nat :| ReachesIn(dd, pl, a, b, n);
      if n > 1 {
        var c :| Edge(dd, pl, a, c) && ReachesIn(dd, pl, c, b, n - 1);
        assert Reaches(dd, pl, c, b);
      }
    }
    if Edge(dd, pl, a, b) {
      assert ReachesIn(dd, pl, a, b, 1);
    } else if c :| Edge(dd, pl, a, c) && Reaches(dd, pl, c, b) {
      var m: nat :| ReachesIn(dd, pl, c, b, m);
      assert ReachesIn(dd, pl, a, b, m + 1);
    }
  }

  /** When every name of `ps` walks to its reachable image, the loop of lines
      90-91 yields the union of those images. */
  lemma {:induction false} WalkEachIsUnion(
    dd: DependencyDict, ps: seq<string>, pl: map<string, string>, depth: nat, below: nat)
    requires depth == below + 1
    requires forall p :: p in ps ==> Walk(dd, p, AsDict(pl), true, below) == Ok(ReachableImage(dd, pl, p))
    ensures WalkEach(dd, ps, AsDict(pl), depth).Ok?
    ensures forall x :: x in WalkEach(dd, ps, AsDict(pl), depth).value <==>
                          exists p :: p in ps && x in ReachableImage(dd, pl, p)
  {
    if ps != [] {
      WalkEachIsUnion(dd, ps[1..], pl, depth, below);
      assert ps[0] in ps;
      var first := Walk(dd, ps[0], AsDict(pl), true, below);
      var rest := WalkEach(dd, ps[1..], AsDict(pl), depth);
      assert first == Ok(ReachableImage(dd, pl, ps[0]));
      assert WalkEach(dd, ps, AsDict(pl), depth) == Ok(first.value + rest.value);
      assert forall p :: p in ps <==> p == ps[0] || p in ps[1..];
    }
  }

  /** What is reachable from `name` is the first step's image plus what is
      reachable from each first step. */
  lemma ReachableImageUnfold(dd: DependencyDict, pl: map<string, string>, name: string, x: string)
    requires name in dd
    ensures x in ReachableImage(dd, pl, name) <==>
              (exists p :: p in dd[name] && p in pl && pl[p] == x) ||
              (exists p :: p in dd[name] && p in pl && x in ReachableImage(dd, pl, p))
  {
    if x in ReachableImage(dd, pl, name) {
      var b :| b in pl && Reaches(dd, pl, name, b) && pl[b] == x;
      ReachesUnfold(dd, pl, name, b);
      if !Edge(dd, pl, name, b) {
        var c :| Edge(dd, pl, name, c) && Reaches(dd, pl, c, b);
        assert x in ReachableImage(dd, pl, c);
      }
    }
    if p :| p in dd[name] && p in pl && pl[p] == x {
      ReachesUnfold(dd, pl, name, p);
      assert x in ReachableImage(dd, pl, name);
    } else if p :| p in dd[name] && p in pl && x in ReachableImage(dd, pl, p) {
      var b :| b in pl && Reaches(dd, pl, p, b) && pl[b] == x;
      ReachesUnfold(dd, pl, name, b);
      assert x in ReachableImage(dd, pl, name);
    }
  }

  /** On an acyclic graph whose catalog keys all have a dependency entry, and
      with enough recursion budget, the recursive walk succeeds with exactly
      the canonical names of the keys reachable from `name` in one or more steps. */
  lemma {:induction false} RecursiveWalkIsReachability(
    dd: DependencyDict, name: string, pl: map<string, string>, rank: map<string, nat>, depth: nat)
    requires name in dd && pl.Keys <= dd.Keys
    requires Ranked(dd, pl, rank)
    requires depth > rank[name]
    ensures Walk(dd, name, AsDict(pl), true, depth) == Ok(ReachableImage(dd, pl, name))
    decreases rank[name]
  {
    var kept := Kept(dd[name], AsDict(pl));
    var below: nat := depth - 1;
    forall p | p in kept
      ensures Walk(dd, p, AsDict(pl), true, below) == Ok(ReachableImage(dd, pl, p))
    {
      RecursiveWalkIsReachability(dd, p, pl, rank, below);
    }
    WalkEachIsUnion(dd, kept, pl, depth, below);
    var direct := Direct(dd[name], AsDict(pl)).value;
    var more := WalkEach(dd, kept, AsDict(pl), depth).value;
    assert Walk(dd, name, AsDict(pl), true, depth) == Ok(direct + more);
    forall x
      ensures x in direct + more <==> x in ReachableImage(dd, pl, name)
    {
      ReachableImageUnfold(dd, pl, name, x);
      assert x in direct <==> exists p :: p in dd[name] && p in pl && pl[p] == x;
      assert x in more <==> exists p :: p in kept && x in ReachableImage(dd, pl, p);
    }
    assert direct + more == ReachableImage(dd, pl, name);
  }

  /** Two catalog keys that depend on each other make every recursive walk
      from either raise, however deep the stack: nothing records what was
      visited, so acyclicity is what termination needs. */
  lemma {:induction false} MutualDependencyRaises(
    dd: DependencyDict, pl: map<string, string>, a: string, b: string, depth: nat)
    requires a in dd && b in dd && dd[a] == [b] && dd[b] == [a]
    requires a in pl && b in pl
    ensures Walk(dd, a, AsDict(pl), true, depth) == Err(RecursionError)
    ensures Walk(dd, b, AsDict(pl), true, depth) == Err(RecursionError)
    decreases depth
  {
    assert Kept(dd[a], AsDict(pl)) == [b];
    assert Kept(dd[b], AsDict(pl)) == [a];
    if depth > 0 {
      MutualDependencyRaises(dd, pl, a, b, depth - 1);
      assert WalkEach(dd, [b], AsDict(pl), depth) == Err(RecursionError);
      assert WalkEach(dd, [a], AsDict(pl), depth) == Err(RecursionError);
    }
  }

  // ----- Names outside `package_list` never contribute

  /** `dd` with every dependency list cut down to the names `pl` knows. */
  function KnownOnly(dd: DependencyDict, pl: PackageList): (r: DependencyDict)
    ensures r.Keys == dd.Keys
    ensures forall k :: k in r ==> r[k] == Kept(dd[k], pl)
  {
    map k | k in dd :: Kept(dd[k], pl)
  }

  /** Line 88 only looks at the names `pl` knows. */
  lemma DirectSeesKnownOnly(ps: seq<string>, qs: seq<string>, pl: PackageList)
    requires Kept(ps, pl) == Kept(qs, pl)
    ensures Direct(ps, pl) == Direct(qs, pl)
  {
    if pl.AsDict? {
      var a, b := Direct(ps, pl).value, Direct(qs, pl).value;
      forall x
        ensures x in a <==> x in b
      {
        if x in a {
          var p :| p in ps && p in pl.names && pl.names[p] == x;
          assert p in qs;
        }
        if x in b {
          var p :| p in qs && p in pl.names && pl.names[p] == x;
          assert p in ps;
        }
      }
      assert a == b;
    } else {
      assert (exists p :: p in ps && p in pl.members) <==> (exists p :: p in qs && p in pl.members);
    }
  }

  lemma {:induction false} KeptIdempotent(ps: seq<string>, pl: PackageList)
    ensures Kept(Kept(ps, pl), pl) == Kept(ps, pl)
  {
    if ps != [] {
      KeptIdempotent(ps[1..], pl);
      if pl.Has(ps[0]) {
        var k := Kept(ps, pl);
        assert k == [ps[0]] + Kept(ps[1..], pl);
        assert k[0] == ps[0] && k[1..] == Kept(ps[1..], pl);
        assert Kept(k, pl) == [k[0]] + Kept(k[1..], pl);
      } else {
        assert Kept(ps, pl) == Kept(ps[1..], pl);
      }
    }
  }

  /** Two dependency dicts with the same keys that agree, entry by entry, on
      the known names and their order. */
  ghost predicate SameKnown(dd1: DependencyDict, dd2: DependencyDict, pl: PackageList)
  {
    && dd1.Keys == dd2.Keys
    && forall k :: k in dd1 ==> Kept(dd1[k], pl) == Kept(dd2[k], pl)
  }

  /** The loop of lines 90-91 sees the dependency dict only through the walks it makes. */
  lemma WalkEachCongruent(dd1: DependencyDict, dd2: DependencyDict, ps: seq<string>, pl: PackageList, depth: nat)
    requires ps != [] && depth > 0
    requires Walk(dd1, ps[0], pl, true, depth - 1) == Walk(dd2, ps[0], pl, true, depth - 1)
    requires WalkEach(dd1, ps[1..], pl, depth) == WalkEach(dd2, ps[1..], pl, depth)
    ensures WalkEach(dd1, ps, pl, depth) == WalkEach(dd2, ps, pl, depth)
  {
  }

  lemma {:induction false} WalkSeesKnownOnly(
    dd1: DependencyDict, dd2: DependencyDict, name: string, pl: PackageList, recursive: bool, depth: nat)
    requires SameKnown(dd1, dd2, pl)
    ensures Walk(dd1, name, pl, recursive, depth) == Walk(dd2, name, pl, recursive, depth)
    decreases depth, 1, 0
  {
    if name in dd1 {
      var k := Kept(dd1[name], pl);
      assert k == Kept(dd2[name], pl);
      DirectSeesKnownOnly(dd1[name], dd2[name], pl);
      if recursive {
        WalkEachSeesKnownOnly(dd1, dd2, k, pl, depth);
      }
    }
  }

  lemma {:induction false} WalkEachSeesKnownOnly(
    dd1: DependencyDict, dd2: DependencyDict, ps: seq<string>, pl: PackageList, depth: nat)
    requires SameKnown(dd1, dd2, pl)
    ensures WalkEach(dd1, ps, pl, depth) == WalkEach(dd2, ps, pl, depth)
    decreases depth, 0, |ps|
  {
    if ps != [] && depth > 0 {
      assert Walk(dd1, ps[0], pl, true, depth - 1) == Walk(dd2, ps[0], pl, true, depth - 1) by {
        WalkSeesKnownOnly(dd1, dd2, ps[0], pl, true, depth - 1);
      }
      assert WalkEach(dd1, ps[1..], pl, depth) == WalkEach(dd2, ps[1..], pl, depth) by {
        WalkEachSeesKnownOnly(dd1, dd2, ps[1..], pl, depth);
      }
      WalkEachCongruent(dd1, dd2, ps, pl, depth);
    }
  }

  /** Dropping, everywhere in the dependency dict, the raw names `package_list`
      does not know changes nothing: not the result, not the exception raised.
      Unknown names contribute neither directly nor transitively. */
  lemma UnknownNamesIrrelevant(dd: DependencyDict, name: string, pl: PackageList, recursive: bool, depth: nat)
    ensures Walk(KnownOnly(dd, pl), name, pl, recursive, depth) == Walk(dd, name, pl, recursive, depth)
  {
    var dd' := KnownOnly(dd, pl);
    forall k | k in dd'
      ensures Kept(dd'[k], pl) == Kept(dd[k], pl)
    {
      KeptIdempotent(dd[k], pl);
    }
    WalkSeesKnownOnly(dd', dd, name, pl, recursive, depth);
  }
}
