/** `get_stacks` of the fuerte generation, buildfarm/dependency_walker_fuerte.py
    lines 43-84: fetch every released stack at its release tag, retrying once
    with the tag cut at its last '-' (meant to drop the debian increment) when
    the first fetch raised, and fail the batch after all entries were tried if
    any of them could not be fetched.

    The repository access of `get_stack_of_remote_repository` (lines 14-40) is an
    oracle from (name, url, tag) to what that call yields. */
module FuerteStacks {
  import opened Results
  import Text

  /** A parsed stack.xml: the project name and the names of its declared
      build and run dependencies. */
  datatype Stack = Stack(name: string, buildDepends: seq<string>, depends: seq<string>)

  /** One entry of `repository_dict`. */
  datatype Release = Release(url: string, fullVersion: Option<string>)

  /** What one call of `get_stack_of_remote_repository` yields: a parsed stack, a
      value that tests false at line 75, or an exception. */
  datatype Fetched = Parsed(stack: Stack) | Falsy | Raised

  /** The repository oracle, asked with (name, url, tag). */
  type Fetch = (string, string, string) -> Fetched

  /** One call of the oracle, recorded in order. */
  datatype Attempt = Attempt(name: string, tag: string)

  datatype StacksError =
    | FetchFailed           // 'Could not fetch one or more stacks.' (line 82)
    | NoneNotSubscriptable  // `stack[name] = None` with `stack` falsy (line 78)

  /** The attempts made and the value returned or exception raised. */
  datatype StacksRun = StacksRun(attempts: seq<Attempt>, outcome: Result<map<string, Stack>, StacksError>)

  /** `'release/%s/%s' % (name, full_version)` (line 53) */
  function PrimaryTag(name: string, version: string): string
  {
    "release/" + name + "/" + version
  }

  /** Lines 61-66: cut the tag before its last '-', if it has one. The cut may
      fall inside the stack name when the version has no '-'. */
  function FallbackTag(tag: string): (r: Option<string>)
    ensures r.None? <==> '-' !in tag
    ensures r.Some? ==> exists suffix :: tag == r.value + "-" + suffix && '-' !in suffix
  {
    var i := Text.RFind(tag, '-');
    if i == -1 then None
    else
      assert tag == tag[..i] + "-" + tag[i + 1..];
      Some(tag[..i])
  }

  /** The tags tried for one entry and what the last one yielded. */
  datatype Resolution = Resolution(tags: seq<string>, got: Fetched)

  /** Lines 53-73 for one entry with a version. */
  function Resolve(name: string, url: string, version: string, fetch: Fetch): (r: Resolution)
    ensures 1 <= |r.tags| <= 2 && r.tags[0] == PrimaryTag(name, version)
    ensures r.got == fetch(name, url, r.tags[|r.tags| - 1])
    ensures |r.tags| == 2 <==> fetch(name, url, r.tags[0]).Raised? && '-' in r.tags[0]
    ensures |r.tags| == 2 ==> FallbackTag(r.tags[0]) == Some(r.tags[1])
  {
    var primary := PrimaryTag(name, version);
    var first := fetch(name, url, primary);
    if !first.Raised? then Resolution([primary], first)
    else
      match FallbackTag(primary)
      case None => Resolution([primary], first)
      case Some(shorter) => Resolution([primary, shorter], fetch(name, url, shorter))
  }

  /** The loop state of lines 44-80; `Aborted` after line 78 raised. */
  datatype Batch =
    | Running(stacks: map<string, Stack>, anyErrors: bool, attempts: seq<Attempt>)
    | Aborted(attempts: seq<Attempt>)

  function AttemptsOf(name: string, tags: seq<string>): (r: seq<Attempt>)
    ensures |r| == |tags| && forall i :: 0 <= i < |r| ==> r[i] == Attempt(name, tags[i])
  {
    if tags == [] then [] else [Attempt(name, tags[0])] + AttemptsOf(name, tags[1..])
  }

  /** The attempts one entry makes: none for a `None` version. */
  function EntryAttempts(entry: (string, Release), fetch: Fetch): seq<Attempt>
  {
    match entry.1.fullVersion
    case None => []
    case Some(v) => AttemptsOf(entry.0, Resolve(entry.0, entry.1.url, v, fetch).tags)
  }

  /** The entry could not be fetched at any tag tried (`any_errors = True`). */
  predicate Unfetched(entry: (string, Release), fetch: Fetch)
  {
    entry.1.fullVersion.Some? && Resolve(entry.0, entry.1.url, entry.1.fullVersion.value, fetch).got.Raised?
  }

  /** The entry reaches line 78 in the backports distro, which raises at once. */
  predicate Aborts(entry: (string, Release), distro: string, fetch: Fetch)
  {
    entry.1.fullVersion.Some? && distro == "backports" &&
    Resolve(entry.0, entry.1.url, entry.1.fullVersion.value, fetch).got.Falsy?
  }

  /** One iteration of the loop of lines 48-79: an aborted loop stays as it
      is; a running one records the entry's attempts, notes a failure, and
      stops exactly at the backports branch. */
  function Step(b: Batch, entry: (string, Release), distro: string, fetch: Fetch): Batch
  {
    match b
    case Aborted(_) => b
    case Running(stacks, anyErrors, attempts) =>
      match entry.1.fullVersion
      case None => b
      case Some(v) =>
        var res := Resolve(entry.0, entry.1.url, v, fetch);
        var tried := attempts + AttemptsOf(entry.0, res.tags);
        match res.got
        case Raised => Running(stacks, true, tried)
        case Parsed(s) => Running(stacks[entry.0 := s], anyErrors, tried)
        case Falsy => if distro == "backports" then Aborted(tried) else Running(stacks, anyErrors, tried)
  }

  /** One iteration leaves a stopped loop alone. A running loop stops exactly at
      the backports branch, records the entry's attempts, and, if it goes on,
      sets `any_errors` exactly when it was set or the entry was not fetched. */
  lemma StepEffect(b: Batch, entry: (string, Release), distro: string, fetch: Fetch)
    ensures var r := Step(b, entry, distro, fetch);
            && (b.Aborted? ==> r == b)
            && (b.Running? ==> (r.Aborted? <==> Aborts(entry, distro, fetch)))
            && (b.Running? ==> r.attempts == b.attempts + EntryAttempts(entry, fetch))
            && (b.Running? && r.Running? ==> (r.anyErrors <==> b.anyErrors || Unfetched(entry, fetch)))
  {
  }

  /** The loop of lines 48-79 over `entries`, in order. Only an entry reaching
      line 78 stops it early. */
  function Loop(entries: seq<(string, Release)>, distro: string, fetch: Fetch): (b: Batch)
    ensures b.Aborted? <==> exists i :: 0 <= i < |entries| && Aborts(entries[i], distro, fetch)
  {
    if entries == [] then Running(map[], false, [])
    else
      var init := entries[..|entries| - 1];
      assert forall i :: 0 <= i < |init| ==> init[i] == entries[i];
      Step(Loop(init, distro, fetch), entries[|entries| - 1], distro, fetch)
  }

  /** Unless it was aborted, the loop attempted every entry, in order: a failure
      does not stop it, and a `None` version makes no attempt. */
  lemma {:induction false} LoopAttemptsAll(entries: seq<(string, Release)>, distro: string, fetch: Fetch)
    ensures Loop(entries, distro, fetch).Running? ==> Loop(entries, distro, fetch).attempts == AllAttempts(entries, fetch)
  {
    if entries != [] {
      var init := entries[..|entries| - 1];
      var last := entries[|entries| - 1];
      LoopAttemptsAll(init, distro, fetch);
      assert Loop(entries, distro, fetch) == Step(Loop(init, distro, fetch), last, distro, fetch);
      StepEffect(Loop(init, distro, fetch), last, distro, fetch);
    }
  }

  /** Unless it was aborted, the loop records an error exactly when some entry
      could not be fetched at any tag tried. */
  lemma {:induction false} LoopErrors(entries: seq<(string, Release)>, distro: string, fetch: Fetch)
    ensures var b := Loop(entries, distro, fetch);
            b.Running? ==> (b.anyErrors <==> exists i :: 0 <= i < |entries| && Unfetched(entries[i], fetch))
  {
    if entries != [] {
      var init := entries[..|entries| - 1];
      var last := entries[|entries| - 1];
      var b0 := Loop(init, distro, fetch);
      var b := Loop(entries, distro, fetch);
      LoopErrors(init, distro, fetch);
      assert b == Step(b0, last, distro, fetch);
      StepEffect(b0, last, distro, fetch);
      UnfetchedSplit(entries, init, fetch);
    }
  }

  /** Some entry is unfetched exactly when one before the last is, or the last is. */
  lemma UnfetchedSplit(entries: seq<(string, Release)>, init: seq<(string, Release)>, fetch: Fetch)
    requires entries != [] && init == entries[..|entries| - 1]
    ensures (exists i :: 0 <= i < |entries| && Unfetched(entries[i], fetch)) <==>
            (exists i :: 0 <= i < |init| && Unfetched(init[i], fetch)) || Unfetched(entries[|entries| - 1], fetch)
  {
    assert forall i :: 0 <= i < |init| ==> init[i] == entries[i];
  }

  /** The names of the entries fetched at some tag. */
  function ObtainedNames(entries: seq<(string, Release)>, fetch: Fetch): set<string>
  {
    set i | 0 <= i < |entries| && Obtained(entries[i], fetch) :: entries[i].0
  }

  /** Unless it was aborted, the loop stores exactly the fetched entries (line 76). */
  lemma {:induction false} LoopStacksKeys(entries: seq<(string, Release)>, distro: string, fetch: Fetch)
    ensures var b := Loop(entries, distro, fetch);
            b.Running? ==> b.stacks.Keys == ObtainedNames(entries, fetch)
  {
    if entries != [] {
      var init := entries[..|entries| - 1];
      var last := entries[|entries| - 1];
      LoopStacksKeys(init, distro, fetch);
      assert forall i :: 0 <= i < |init| ==> init[i] == entries[i];
      assert ObtainedNames(entries, fetch) ==
             ObtainedNames(init, fetch) + (if Obtained(last, fetch) then {last.0} else {});
    }
  }

  /** Unless it was aborted, each fetched entry is stored under its name with
      the stack of the tag that succeeded; a later fetched entry of the same
      name overwrites it. */
  lemma {:induction false} LoopStacksValues(entries: seq<(string, Release)>, distro: string, fetch: Fetch, i: int)
    requires 0 <= i < |entries| && Obtained(entries[i], fetch) && LastObtained(entries, i, fetch)
    ensures var b := Loop(entries, distro, fetch);
            b.Running? ==> entries[i].0 in b.stacks && Parsed(b.stacks[entries[i].0]) == FetchedFor(entries[i], fetch)
  {
    var init := entries[..|entries| - 1];
    var last := entries[|entries| - 1];
    var b0 := Loop(init, distro, fetch);
    assert Loop(entries, distro, fetch) == Step(b0, last, distro, fetch);
    if i < |init| {
      assert init[i] == entries[i];
      assert LastObtained(init, i, fetch) by {
        forall j | i < j < |init| && Obtained(init[j], fetch)
          ensures init[j].0 != init[i].0
        {
          assert init[j] == entries[j];
        }
      }
      LoopStacksValues(init, distro, fetch, i);
      assert !Obtained(last, fetch) || last.0 != entries[i].0;
    }
  }

  /** No later entry with the same name was fetched. */
  predicate LastObtained(entries: seq<(string, Release)>, i: int, fetch: Fetch)
    requires 0 <= i < |entries|
  {
    forall j :: i < j < |entries| && Obtained(entries[j], fetch) ==> entries[j].0 != entries[i].0
  }

  /** Every attempt of every entry, in entry order: what the loop makes when no
      entry aborts it. */
  function AllAttempts(entries: seq<(string, Release)>, fetch: Fetch): seq<Attempt>
  {
    if entries == [] then []
    else AllAttempts(entries[..|entries| - 1], fetch) + EntryAttempts(entries[|entries| - 1], fetch)
  }

  /** The entry was fetched at one of its tags (line 76 stores it). */
  predicate Obtained(entry: (string, Release), fetch: Fetch)
  {
    entry.1.fullVersion.Some? && Resolve(entry.0, entry.1.url, entry.1.fullVersion.value, fetch).got.Parsed?
  }

  function FetchedFor(entry: (string, Release), fetch: Fetch): Fetched
    requires entry.1.fullVersion.Some?
  {
    Resolve(entry.0, entry.1.url, entry.1.fullVersion.value, fetch).got
  }

  /** An entry whose version is `None` is skipped (lines 50-52): removing it
      changes neither the attempts, nor the errors, nor the stacks. */
  lemma {:induction false} NoVersionSkipped(entries: seq<(string, Release)>, k: int, distro: string, fetch: Fetch)
    requires 0 <= k < |entries| && entries[k].1.fullVersion.None?
    ensures Loop(entries[..k] + entries[k + 1..], distro, fetch) == Loop(entries, distro, fetch)
  {
    var init := entries[..|entries| - 1];
    var last := entries[|entries| - 1];
    var rest := entries[..k] + entries[k + 1..];
    assert Loop(entries, distro, fetch) == Step(Loop(init, distro, fetch), last, distro, fetch);
    if k == |entries| - 1 {
      assert rest == init;
      assert Step(Loop(init, distro, fetch), last, distro, fetch) == Loop(init, distro, fetch);
    } else {
      NoVersionSkipped(init, k, distro, fetch);
      var restInit := init[..k] + init[k + 1..];
      DropBeforeLast(entries, k);
      assert Loop(rest, distro, fetch) == Step(Loop(restInit, distro, fetch), last, distro, fetch);
    }
  }

  /** Dropping an entry before the last keeps the last entry last and drops
      the same entry from the rest. */
  lemma DropBeforeLast<T>(xs: seq<T>, k: int)
    requires 0 <= k < |xs| - 1
    ensures var rest := xs[..k] + xs[k + 1..];
            var init := xs[..|xs| - 1];
            rest != [] && rest[..|rest| - 1] == init[..k] + init[k + 1..] && rest[|rest| - 1] == xs[|xs| - 1]
  {
    var init := xs[..|xs| - 1];
    assert init[..k] == xs[..k];
    assert xs[k + 1..] == init[k + 1..] + [xs[|xs| - 1]];
  }

  /** The fallback cut can fall inside the stack name: a version without '-'
      but a name with one retries at a tag naming a different stack. */
  lemma FallbackCanCutTheName()
    ensures FallbackTag(PrimaryTag("common-msgs", "1.8.0")) == Some("release/common")
  {
    assert PrimaryTag("common-msgs", "1.8.0") == "release/common" + "-" + "msgs/1.8.0";
    assert '-' !in "msgs/1.8.0";
    FallbackCutsLastDash("release/common", "msgs/1.8.0");
  }

  /** The retry tag of a version carrying a debian increment is the release
      tag of the version without it (the comment at line 60). */
  lemma FallbackDropsDebianIncrement(name: string, version: string, increment: string)
    requires '-' !in increment
    ensures FallbackTag(PrimaryTag(name, version + "-" + increment)) == Some(PrimaryTag(name, version))
  {
    assert PrimaryTag(name, version + "-" + increment) == PrimaryTag(name, version) + "-" + increment;
    FallbackCutsLastDash(PrimaryTag(name, version), increment);
  }

  /** The retry tag of `prefix-suffix`, with no '-' in `suffix`, is `prefix`. */
  lemma FallbackCutsLastDash(prefix: string, suffix: string)
    requires '-' !in suffix
    ensures FallbackTag(prefix + "-" + suffix) == Some(prefix)
  {
    var t := prefix + "-" + suffix;
    assert t == prefix + ['-'] + suffix;
    Text.RFindSplit(prefix, '-', suffix);
    assert t[..|prefix|] == prefix;
  }

  /** `get_stacks(workspace, repository_dict, rosdistro)` over the dict's items in
      sorted order. */
  function GetStacks(entries: seq<(string, Release)>, distro: string, fetch: Fetch): (r: StacksRun)
    requires Text.SortedItems(entries)
    ensures r.outcome == Err(NoneNotSubscriptable) <==> exists i :: 0 <= i < |entries| && Aborts(entries[i], distro, fetch)
    ensures r.outcome == Err(FetchFailed) <==>
              (forall i :: 0 <= i < |entries| ==> !Aborts(entries[i], distro, fetch)) &&
              (exists i :: 0 <= i < |entries| && Unfetched(entries[i], fetch))
    ensures r.outcome != Err(NoneNotSubscriptable) ==> r.attempts == AllAttempts(entries, fetch)
    ensures r.outcome.Ok? ==> r.outcome.value.Keys == ObtainedNames(entries, fetch)
    ensures r.outcome.Ok? ==> forall i :: 0 <= i < |entries| && Obtained(entries[i], fetch) ==>
                                Parsed(r.outcome.value[entries[i].0]) == FetchedFor(entries[i], fetch)
  {
    Text.SortedItemsDistinct(entries);
    LoopAttemptsAll(entries, distro, fetch);
    LoopErrors(entries, distro, fetch);
    LoopStacksKeys(entries, distro, fetch);
    forall i | 0 <= i < |entries| && Obtained(entries[i], fetch)
      ensures Loop(entries, distro, fetch).Running? ==>
                Parsed(Loop(entries, distro, fetch).stacks[entries[i].0]) == FetchedFor(entries[i], fetch)
    {
      LoopStacksValues(entries, distro, fetch, i);
    }
    match Loop(entries, distro, fetch)
    case Aborted(attempts) => StacksRun(attempts, Err(NoneNotSubscriptable))
    case Running(stacks, anyErrors, attempts) =>
      StacksRun(attempts, if anyErrors then Err(FetchFailed) else Ok(stacks))
  }
}
