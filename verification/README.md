# Dependency walker of the buildfarm, in Dafny

This project models how the buildfarm computes, for every released package,
the set of packages Jenkins must install before building it. The model
covers both generations of the walker:

* **Fuerte, the stack generation** (`buildfarm/dependency_walker_fuerte.py`):
  * `get_stacks` fetches every stack of the catalog at its release tag. If
    that fetch raises and the tag has a '-', it retries once with the tag
    cut at its last '-', which is meant to drop the debian increment. It
    skips entries without a version and raises after the whole batch if any
    entry could not be fetched.
  * `get_dependencies` builds the three aligned tables (`packages`,
    `build_dependencies`, `runtime_dependencies`). It then gives every
    package its direct build dependencies, together with the runtime part
    computed at line 119.
  * `_get_dependencies` is the filtered, optionally recursive walk.
* **Catkin, the package generation** (`buildfarm/dependency_walker.py`):
  * `prune_self_depends` removes a package's dependency on itself.
  * `_get_depends` computes the first-level or recursive build or run
    dependencies of a package.xml.
  * `get_jenkins_dependencies` produces the table of debianized names.

Modules and files:

* `results.dfy`: `Option` and `Result`.
* `naming.dfy`: the two naming rules of `rosdistro`. They are function
  parameters, so every contract holds for any naming rule.
* `text.dfy`: `rfind` and the code-point order that `sorted` uses on
  names.
* `fuerte_walk.dfy`: `_get_dependencies`.
* `fuerte_stacks.dfy`: `get_stacks`. The repository is an oracle from
  (name, url, tag) to "parsed stack", "falsy value" or "exception".
* `fuerte_dependencies.dfy`: `get_dependencies`.
* `catkin_walk.dfy`: `prune_self_depends`, `_get_depends` and
  `get_jenkins_dependencies`.

Python's recursion limit becomes a `depth` budget. Neither walker keeps a
visited set, so a dependency cycle ends in the interpreter's recursion-limit
error once the budget is spent. The model calls it `RecursionError`; Python 2
raises it as `RuntimeError('maximum recursion depth exceeded')`, Python 3 as
`RecursionError`. A dict that is iterated through `sorted(...)` is given as
its items in that order, which the `Text.SortedItems` precondition states.
Result lists are modelled as sets, because the order of a list built from a
Python set is not specified.

In two places the code does something other than what its own comments and
messages announce. The model follows the code in both:

* The comment at line 114 of `dependency_walker_fuerte.py` says the loop
  "combines direct buildtime- and recursive runtime-dependencies". The
  comment at line 118 says "recursive runtime depends of build depends".
  Line 119, however, passes `build_deps` where the name table is expected.
  See "## Findings".
* In the `backports` distro, the message at line 79 ("Processing backport
  %s, no package.xml file found in repo %s. Continuing") announces that the
  loop goes on. Line 78, however, assigns into the falsy `stack`, modelled as
  `None`, which cannot be subscripted. The call raises before the message is
  printed, so `get_stacks` ends in an error.

Neither walker keeps a visited set. `FuerteWalk.MutualDependencyRaises` and
`CatkinWalk.MutualDependencyRaises` show the consequence for two packages
that depend on each other.

## Model

| member | source | states |
|---|---|---|
| Text.RFind | buildfarm/dependency_walker_fuerte.py:61 | `rfind` gives -1 exactly when the character is absent. Otherwise it gives an index holding the character with no occurrence after it. |
| Text.RFindSplit | buildfarm/dependency_walker_fuerte.py:61 | In `a + [c] + b` with no `c` in `b`, `rfind` finds the `c` right after `a`. |
| Text.SortedItemsDistinct | buildfarm/dependency_walker_fuerte.py:48 | The sorted items of a dict have pairwise distinct keys. |
| FuerteStacks.FallbackTag | buildfarm/dependency_walker_fuerte.py:61-66 | There is no retry tag exactly when the tag has no '-'. Otherwise the retry tag is the tag cut before a final '-'-free suffix. |
| FuerteStacks.FallbackCutsLastDash | buildfarm/dependency_walker_fuerte.py:61-66 | A tag whose part after its last '-' holds no '-' falls back to everything before that '-'. |
| FuerteStacks.FallbackDropsDebianIncrement | buildfarm/dependency_walker_fuerte.py:53-66 | The first tag is `release/<name>/<version>`. For a version with a debian increment, the retry tag is the same tag with the increment dropped. |
| FuerteStacks.Resolve | buildfarm/dependency_walker_fuerte.py:53-73 | The first tag tried is `release/<name>/<version>`. A second tag is tried exactly when the first fetch raised and the tag has a '-'. That second tag is the fallback tag. The outcome is what the last tag yielded. |
| FuerteStacks.AttemptsOf | buildfarm/dependency_walker_fuerte.py:58-69 | One attempt per tag, in order, all for the entry's name. |
| FuerteStacks.StepEffect | buildfarm/dependency_walker_fuerte.py:49-79 | One loop iteration leaves a stopped loop alone. A running loop stops exactly when the entry reaches the backports branch, and each iteration adds that entry's attempts. If the loop keeps running, `any_errors` becomes set exactly when it was set before or the entry could not be fetched. |
| FuerteStacks.Loop | buildfarm/dependency_walker_fuerte.py:48-79 | The loop stops early exactly when some entry falls into the backports branch. |
| FuerteStacks.LoopAttemptsAll | buildfarm/dependency_walker_fuerte.py:48-73 | Unless it stopped early, the loop tried every versioned entry, in sorted order, at the tags `Resolve` chooses. |
| FuerteStacks.LoopErrors | buildfarm/dependency_walker_fuerte.py:62-73 | Unless it stopped early, `any_errors` is set exactly when some entry could not be fetched at any tag. |
| FuerteStacks.LoopStacksKeys | buildfarm/dependency_walker_fuerte.py:75-76 | Unless it stopped early, the stored names are exactly those of the entries fetched at some tag. |
| FuerteStacks.LoopStacksValues | buildfarm/dependency_walker_fuerte.py:75-76 | Each fetched entry is stored under its name with the stack of the tag that succeeded, unless a later entry of that name overwrote it. |
| FuerteStacks.NoVersionSkipped | buildfarm/dependency_walker_fuerte.py:50-52 | Removing an entry without a version changes nothing: no attempt, no error, no stored stack. |
| FuerteStacks.FallbackCanCutTheName | buildfarm/dependency_walker_fuerte.py:53-66 | The retry tag can cut inside the stack name: `release/common-msgs/1.8.0` falls back to `release/common`. |
| FuerteStacks.GetStacks | buildfarm/dependency_walker_fuerte.py:43-84 | The backports branch raises exactly when reached. Otherwise the call raises after the whole batch exactly when some entry could not be fetched, and every versioned entry was tried. On success the keys are the fetched names and each holds its stack. |
| FuerteWalk.Kept | buildfarm/dependency_walker_fuerte.py:90 | The names kept are exactly the raw names that are in the package list. |
| FuerteWalk.KeptIdempotent | buildfarm/dependency_walker_fuerte.py:90 | Filtering a second time changes nothing. |
| FuerteWalk.Direct | buildfarm/dependency_walker_fuerte.py:88 | Over a dict the result is exactly the image of the raw names that are keys. Over a set, subscripting raises `TypeError` exactly when some raw name is a member, and otherwise the result is empty. |
| FuerteWalk.Walk | buildfarm/dependency_walker_fuerte.py:87-92 | An unknown start name raises `KeyError`. Every value returned is a value of the package list. The non-recursive walk is the direct image. |
| FuerteWalk.MutualDependencyRaises | buildfarm/dependency_walker_fuerte.py:87-92 | Two catalog names that depend only on each other make every recursive walk of either raise `RecursionError`. |
| FuerteWalk.WalkEach | buildfarm/dependency_walker_fuerte.py:90-91 | The union of the neighbours' walks holds only package-list values and is empty for no neighbours. |
| FuerteWalk.WalkOverSet | buildfarm/dependency_walker_fuerte.py:88-91 | With a set as package list, the walk raises `TypeError` exactly when a raw name is a member, and otherwise returns the empty set. |
| FuerteWalk.RecursiveExtendsDirect | buildfarm/dependency_walker_fuerte.py:88-91 | A successful recursive walk contains the non-recursive result. |
| FuerteWalk.ReachesUnfold | buildfarm/dependency_walker_fuerte.py:90-91 | Reachability in one or more steps through catalog keys is one step, or one step followed by reachability. |
| FuerteWalk.WalkEachIsUnion | buildfarm/dependency_walker_fuerte.py:90-91 | When every neighbour's walk is its reachable image, the loop returns the union of those images. |
| FuerteWalk.ReachableImageUnfold | buildfarm/dependency_walker_fuerte.py:88-91 | The reachable image of a name is its direct image plus the reachable images of its kept neighbours. |
| FuerteWalk.RecursiveWalkIsReachability | buildfarm/dependency_walker_fuerte.py:87-92 | On an acyclic graph with enough budget, the recursive walk returns exactly the image of the names reachable in one or more steps through catalog keys. |
| FuerteWalk.DirectSeesKnownOnly | buildfarm/dependency_walker_fuerte.py:88 | Two raw lists with the same catalog names give the same direct result. |
| FuerteWalk.WalkSeesKnownOnly | buildfarm/dependency_walker_fuerte.py:87-92 | Two dependency dicts that agree on their catalog names give the same walk. |
| FuerteWalk.WalkEachSeesKnownOnly | buildfarm/dependency_walker_fuerte.py:90-91 | The same holds for the neighbour loop. |
| FuerteWalk.UnknownNamesIrrelevant | buildfarm/dependency_walker_fuerte.py:88-91 | Names outside the package list never contribute, directly or transitively: removing them from every list leaves the walk unchanged. |
| FuerteDependencies.BuildTables | buildfarm/dependency_walker_fuerte.py:96-111 | The three tables have the same keys: those of the entries. |
| FuerteDependencies.BuildTablesRecords | buildfarm/dependency_walker_fuerte.py:100-111 | A missing stack is filed under its catalog name, sanitized, with empty lists. A present stack is filed under its own name, debianized, with its declared names. A later entry of the same key wins. |
| FuerteDependencies.AddEntryFiles | buildfarm/dependency_walker_fuerte.py:101-111 | One iteration files the entry under its key, as `BuildTablesRecords` describes, keeps the three tables aligned and leaves every other key unchanged. |
| FuerteDependencies.KeyOrder | buildfarm/dependency_walker_fuerte.py:115 | `packages.keys()` yields every key exactly once. |
| FuerteDependencies.DirectBuildIsWalk | buildfarm/dependency_walker_fuerte.py:117 | The build dependencies of a key are what the non-recursive walk over `build_dependencies` returns for it. |
| FuerteDependencies.AssembleOne | buildfarm/dependency_walker_fuerte.py:117-121 | For one key, the loop body raises `TypeError` exactly on a runtime hit. Otherwise it stores the debianized translated build dependencies. |
| FuerteDependencies.Assemble | buildfarm/dependency_walker_fuerte.py:115-121 | The loop raises `TypeError` exactly when some key's runtime names meet its translated build dependencies. |
| FuerteDependencies.AssembleKeys | buildfarm/dependency_walker_fuerte.py:121 | On success the result keys are the canonical names of the keys visited. |
| FuerteDependencies.AssembleValues | buildfarm/dependency_walker_fuerte.py:117-121 | Each canonical name holds the debianized build dependencies of the last key with that canonical name. |
| FuerteDependencies.OrderImage | buildfarm/dependency_walker_fuerte.py:115-121 | Visiting every key once reaches every canonical name. |
| FuerteDependencies.HitInOrder | buildfarm/dependency_walker_fuerte.py:115-119 | Some key has a runtime hit exactly when the loop meets one. |
| FuerteDependencies.GetDependencies | buildfarm/dependency_walker_fuerte.py:95-123 | The call raises `TypeError` exactly when some package run-depends on a name equal to one of its translated build dependencies. On success the keys are exactly the canonical names. |
| FuerteDependencies.GetDependenciesValues | buildfarm/dependency_walker_fuerte.py:117-121 | On success, each canonical name holds the debianized translated build dependencies of a package with that canonical name. |
| FuerteDependencies.GetDependenciesInjective | buildfarm/dependency_walker_fuerte.py:117-121 | With distinct canonical names, each package's entry is exactly its debianized translated build dependencies. The runtime part adds nothing. |
| FuerteDependencies.NeededNames | buildfarm/dependency_walker_fuerte.py:117-119 | The build dependencies plus their runtime closure are the image of the keys needed to build the package. |
| FuerteDependencies.IntendedIsBuildPlusRuntimeClosure | buildfarm/dependency_walker_fuerte.py:114-121 | On an acyclic runtime graph, the combination the comments describe holds exactly the debianized canonical names of the build dependencies and everything they reach through runtime dependencies. |
| FuerteDependencies.IntendedExtendsAsWritten | buildfarm/dependency_walker_fuerte.py:114-121 | The combination the comments describe contains the debianized build dependencies, and everything in it is the debianized canonical name of some catalog package. |
| FuerteDependencies.IntendedHasRuntimeOfBuildDep | buildfarm/dependency_walker_fuerte.py:114-121 | On an acyclic runtime graph with enough budget, the combination the comments describe holds each runtime dependency of each build dependency, debianized. |
| FuerteDependencies.AsWrittenDropsRuntimeOfBuildDeps | buildfarm/dependency_walker_fuerte.py:117-121 | For R build-depending on Q, which run-depends on P, the code gives R only Q. |
| FuerteDependencies.IntendedKeepsRuntimeOfBuildDeps | buildfarm/dependency_walker_fuerte.py:114-121 | For the same catalog the intended combination gives R also P. |
| FuerteDependencies.AsWrittenRaisesOnSharedDependency | buildfarm/dependency_walker_fuerte.py:88-119 | A package that build- and run-depends on the same unrenamed placeholder makes the code raise `TypeError`. The intended combination succeeds. |
| CatkinWalk.PruneSelfDepends | buildfarm/dependency_walker.py:81-87 | Pruning removes at most one element. |
| CatkinWalk.PruneSelfDependsNoMatch | buildfarm/dependency_walker.py:82 | With no element named like the package, nothing changes. |
| CatkinWalk.PruneSelfDependsRemovesFirst | buildfarm/dependency_walker.py:84-87 | Exactly the first element named like the package is removed; the others keep their order. |
| CatkinWalk.PruneSelfDependsMultiset | buildfarm/dependency_walker.py:84-87 | As multisets, pruning loses that one element and nothing else. |
| CatkinWalk.PruneSelfDependsOnSet | buildfarm/dependency_walker.py:81-87 | When at most one element is named like the package, pruning any enumeration leaves exactly the elements not so named. |
| CatkinWalk.PruneOnDictValues | buildfarm/dependency_walker.py:81-87 | Over packages of a dict whose names are unique, pruning any enumeration of a set leaves exactly that set minus the package-named one. |
| CatkinWalk.ImmediateIsPruned | buildfarm/dependency_walker.py:95-99 | Pruning any enumeration of the dict packages of the declared names gives `immediate_depends`: those packages minus the one named like the package. Build time declares build plus buildtool names, run time declares run names. |
| CatkinWalk.Depends | buildfarm/dependency_walker.py:94-111 | Every result is a value of the dict, so a name absent from the dict never appears. Nothing in a result is named like the package. |
| CatkinWalk.FirstLevelDepends | buildfarm/dependency_walker.py:95-111 | Without recursion the call succeeds with exactly the immediate dependencies. |
| CatkinWalk.RecursiveDepends | buildfarm/dependency_walker.py:101-107 | The recursive call raises exactly when some walked dependency's call does. Otherwise it is the immediate dependencies plus what their walks return, minus the package, and so a superset of the first-level result. |
| CatkinWalk.ChildResults | buildfarm/dependency_walker.py:104-106 | The walk of each immediate dependency: its recursive walk when it is a dict key and budget is left, nothing otherwise. |
| CatkinWalk.PruneLoopCollects | buildfarm/dependency_walker.py:104-107 | Uniting each walk and pruning after every union keeps exactly the elements of the start set and of the walks that are not named like the package. |
| CatkinWalk.DependsIsPruneLoop | buildfarm/dependency_walker.py:101-107 | A successful recursive walk is that loop: start from the immediate dependencies, unite each child's walk and prune after each union. |
| CatkinWalk.RankedDependsSucceeds | buildfarm/dependency_walker.py:101-107 | On a graph acyclic beyond self-loops, with enough budget, the recursive walk of a dict package succeeds. |
| CatkinWalk.RankedChildSucceeds | buildfarm/dependency_walker.py:104-106 | On the same graph, the walk of each immediate dependency that is a dict key does not raise. |
| CatkinWalk.ChildRaisesPropagates | buildfarm/dependency_walker.py:104-106 | An immediate dependency whose walk raises makes the whole walk raise. |
| CatkinWalk.MutualChildRaises | buildfarm/dependency_walker.py:101-107 | For two packages that run-depend on each other, the walk one frame down of either raises at every budget. |
| CatkinWalk.MutualDependencyRaises | buildfarm/dependency_walker.py:101-107 | Two packages that run-depend on each other make every recursive walk of either raise. |
| CatkinWalk.ToMap | buildfarm/dependency_walker.py:164-165 | The dict rebuilt from its items has exactly the item keys. |
| CatkinWalk.ToMapValues | buildfarm/dependency_walker.py:164-165 | An item whose key no later item repeats is what the rebuilt dict holds under that key. Sorted items have distinct keys, so `packages[pkg_name]` at line 165 is that item's package. |
| CatkinWalk.FirstLevel | buildfarm/dependency_walker.py:167-171 | The first-level build and run dependencies are exactly the dict packages of the build, buildtool and run names, minus the package. |
| CatkinWalk.JenkinsEntryNames | buildfarm/dependency_walker.py:167-171 | The list of a package holds the debianized name of each build, buildtool or run name that is a dict key naming another package, and nothing else. |
| CatkinWalk.FirstLevelExcludesSelf | buildfarm/dependency_walker.py:99-171 | No first-level dependency carries the package's own name, whatever the debianize rule. |
| CatkinWalk.JenkinsLoop | buildfarm/dependency_walker.py:164-172 | The loop writes one key per item: its debianized name. |
| CatkinWalk.JenkinsLoopValues | buildfarm/dependency_walker.py:166-171 | An item whose debianized name no later item repeats keeps its own entry. |
| CatkinWalk.JenkinsLoopEveryValue | buildfarm/dependency_walker.py:164-171 | Every key holds the entry of some item with that debianized name. |
| CatkinWalk.JenkinsDependencies | buildfarm/dependency_walker.py:162-174 | There is one key per package: its debianized name. Under it are the debianized names of its first-level build and run dependencies only. The last package in sorted order wins a shared name. |
| CatkinWalk.NoSelfDependency | buildfarm/dependency_walker.py:162-174 | With a debianize rule that keeps names apart, no key of the table appears in its own list. |

## Left out

- Repository access is not modelled. This covers `VcsFileCache`, `_get_file`, `get_file_contents` and `get_stack_of_remote_repository` (`buildfarm/dependency_walker.py:23-78`, `buildfarm/dependency_walker_fuerte.py:14-40`). They are git, filesystem and temporary-directory I/O. Fuerte replaces them with the `Fetch` oracle.
- The catkin `get_packages` loop is not modelled (`buildfarm/dependency_walker.py:114-159`). It is fetch orchestration, update bookkeeping and `time.sleep`. Its output, a dict keyed by package name, is the input of `CatkinWalk.JenkinsDependencies`.
- Manifest parsing is not modelled (`parse_package_string`, `rospkg.stack.parse_stack_file`). These are foreign library calls. A parsed manifest is a `Stack` or `Package` value holding only the dependency names.
- The naming rules of `debianize_package_name` and `sanitize_package_name` are not visible here. They are parameters, and every contract holds for any rule.
- All `print` output and logging are left out.
- FuerteStacks.GetStacks: the exception text and any exception other than the fetch failing are not modelled. Workspace state shared between fetches is not modelled either; the oracle answers each (name, url, tag) the same way every time.
- FuerteDependencies.GetDependencies: a result value is the set of its list's elements. List order and duplicate debianized names are not modelled.
- FuerteDependencies.GetDependenciesValues: when two keys share a canonical name, it states only that the entry comes from one of them. It does not say which. That depends on the order in which `packages.keys()` enumerates the keys, and that order is not modelled.
- CatkinWalk.Depends: it requires that no two distinct packages of the dict share a name. Otherwise which element `prune_self_depends` removes depends on the iteration order of a Python set. The dict built at `buildfarm/dependency_walker.py:144` is keyed by package name, so it meets this condition.
- CatkinWalk.JenkinsDependencies: a result value is the set of its list's elements. List order and duplicate debianized names are not modelled.
- CatkinWalk.NoSelfDependency: it requires the debianize rule to keep distinct names distinct. The rule itself is not part of this model.
- The recursion limit is a budget parameter, not the interpreter's exact frame count. Only its consequence is modelled: an unbounded walk raises the interpreter's recursion-limit error, `RecursionError` in the model.

## Findings

| source | as written | input that shows it | evidently intended | confidence | as-written member | corrected member |
|---|---|---|---|---|---|---|
| buildfarm/dependency_walker_fuerte.py:119 | `_get_dependencies(runtime_dependencies, k, build_deps, True)` passes the set of translated build dependencies where the name table is expected. The runtime part is then empty, or `TypeError` when a runtime name equals a translated build dependency (line 88 subscripts the set). | Catalog P (placeholder "P"), Q run-depending on P, R build-depending on Q: R gets `{Q}` only. Q both build- and run-depending on P: the whole call raises. | Direct build dependencies plus the recursive runtime dependencies of those build dependencies, as the comments at lines 114 and 118 say. | high (not executed) | FuerteDependencies.AsWrittenDropsRuntimeOfBuildDeps, FuerteDependencies.AsWrittenRaisesOnSharedDependency | FuerteDependencies.IntendedIsBuildPlusRuntimeClosure |
