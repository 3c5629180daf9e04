/** The dependency closure of native libraries and the catalogue lock that relies on it. */
module NativeClosure {
  import opened Bytes

  /** The names each catalogued ELF file needs. */
  type Catalogue = map<string, seq<string>>

  predicate Needs(cat: Catalogue, name: string, dependency: string) {
    name in cat && dependency in cat[name]
  }

  ghost predicate Closed(names: set<string>, cat: Catalogue) {
    forall n, d :: n in names && Needs(cat, n, d) ==> d in names
  }

  /** A chain of recorded dependencies that starts at an initial name. */
  ghost predicate Chain(initial: set<string>, cat: Catalogue, path: seq<string>) {
    |path| > 0 && path[0] in initial && forall i :: 0 < i < |path| ==> Needs(cat, path[i - 1], path[i])
  }

  ghost predicate Reachable(initial: set<string>, cat: Catalogue, name: string) {
    exists path :: Chain(initial, cat, path) && path[|path| - 1] == name
  }

  /** `names` contains the initial names, is closed, and lies inside every such set. */
  ghost predicate LeastClosed(names: set<string>, initial: set<string>, cat: Catalogue) {
    initial <= names && Closed(names, cat) && forall s :: initial <= s && Closed(s, cat) ==> names <= s
  }

  lemma InitialReachable(initial: set<string>, cat: Catalogue, name: string)
    requires name in initial
    ensures Reachable(initial, cat, name)
  {
    assert Chain(initial, cat, [name]);
  }

  lemma ReachFurther(initial: set<string>, cat: Catalogue, name: string, dependency: string)
    requires Reachable(initial, cat, name) && Needs(cat, name, dependency)
    ensures Reachable(initial, cat, dependency)
  {
    var path :| Chain(initial, cat, path) && path[|path| - 1] == name;
    assert Chain(initial, cat, path + [dependency]);
    assert (path + [dependency])[|path + [dependency]| - 1] == dependency;
  }

  lemma {:induction false} ChainStaysInside(initial: set<string>, cat: Catalogue, path: seq<string>, s: set<string>)
    requires Chain(initial, cat, path) && initial <= s && Closed(s, cat)
    ensures path[|path| - 1] in s
    decreases |path|
  {
    if |path| > 1 {
      assert Chain(initial, cat, path[..|path| - 1]);
      ChainStaysInside(initial, cat, path[..|path| - 1], s);
      assert Needs(cat, path[|path| - 2], path[|path| - 1]);
    }
  }

  /** The reachable names are the least closed superset of the initial ones. */
  lemma ReachableIsLeast(names: set<string>, initial: set<string>, cat: Catalogue)
    requires forall n :: n in names <==> Reachable(initial, cat, n)
    ensures LeastClosed(names, initial, cat)
  {
    forall n | n in initial ensures n in names { InitialReachable(initial, cat, n); }
    forall n, d | n in names && Needs(cat, n, d) ensures d in names { ReachFurther(initial, cat, n, d); }
    forall s, n | initial <= s && Closed(s, cat) && n in names ensures n in s {
      var path :| Chain(initial, cat, path) && path[|path| - 1] == n;
      ChainStaysInside(initial, cat, path, s);
    }
  }

  ghost function Universe(initial: set<string>, cat: Catalogue): set<string> {
    initial + set n, d | n in cat && d in cat[n] :: d
  }

  /** The worklist's invariant: what was met is reachable, and is pending or has all its
      dependencies in the set. */
  ghost predicate Exploring(initial: set<string>, cat: Catalogue, closure: set<string>, pending: seq<string>) {
    && initial <= closure <= Universe(initial, cat)
    && (forall n :: n in pending ==> n in closure)
    && (forall n :: n in closure ==> Reachable(initial, cat, n))
    && (forall n, d :: n in closure && n !in pending && Needs(cat, n, d) ==> d in closure)
  }

  lemma ExploreStart(initial: set<string>, cat: Catalogue, pending: seq<string>)
    requires forall n :: n in pending <==> n in initial
    ensures Exploring(initial, cat, initial, pending)
  {
    forall n | n in initial ensures Reachable(initial, cat, n) { InitialReachable(initial, cat, n); }
  }

  /** One name taken off the list, its dependencies (none when it is not catalogued) added. */
  lemma ExploreTurn(initial: set<string>, cat: Catalogue, before: set<string>, rest: seq<string>, name: string,
      closure: set<string>, pending: seq<string>)
    requires Exploring(initial, cat, before, rest + [name])
    requires forall d :: d in closure <==> d in before || Needs(cat, name, d)
    requires forall n :: n in pending <==> n in rest || n in closure - before
    ensures Exploring(initial, cat, closure, pending)
    ensures before <= closure <= Universe(initial, cat)
  {
    hide Reachable;
    assert name in rest + [name];
    forall d | d in closure && d !in before
      ensures Reachable(initial, cat, d) && d in Universe(initial, cat)
    {
      ReachFurther(initial, cat, name, d);
    }
    forall n, d | n in closure && n !in pending && Needs(cat, n, d) ensures d in closure {
      if n != name { assert n !in rest + [name]; }
    }
  }

  lemma ExploreDone(initial: set<string>, cat: Catalogue, closure: set<string>)
    requires Exploring(initial, cat, closure, [])
    ensures forall n :: n in closure <==> Reachable(initial, cat, n)
    ensures LeastClosed(closure, initial, cat)
  {
    forall n | Reachable(initial, cat, n) ensures n in closure {
      var path :| Chain(initial, cat, path) && path[|path| - 1] == n;
      ChainStaysInside(initial, cat, path, closure);
    }
    ReachableIsLeast(closure, initial, cat);
  }

  method ListOf(names: set<string>) returns (list: seq<string>)
    ensures forall n :: n in list <==> n in names
  {
    list := [];
    var rest := names;
    while rest != {}
      invariant rest <= names
      invariant forall n :: n in list <==> n in names - rest
      decreases rest
    {
      var n :| n in rest;
      list := list + [n];
      rest := rest - {n};
    }
  }

  /** The inner loop: add each dependency not yet seen, and queue it. */
  method AddDependencies(needed: seq<string>, closure0: set<string>, pending0: seq<string>)
    returns (closure: set<string>, pending: seq<string>)
    ensures closure == closure0 + set d | d in needed
    ensures pending0 <= pending
    ensures forall n :: n in pending <==> n in pending0 || n in closure - closure0
    ensures closure == closure0 ==> pending == pending0
  {
    closure, pending := closure0, pending0;
    for i := 0 to |needed|
      invariant closure == closure0 + set d | d in needed[..i]
      invariant pending0 <= pending
      invariant forall n :: n in pending <==> n in pending0 || n in closure - closure0
      invariant closure == closure0 ==> pending == pending0
    {
      assert needed[..i + 1] == needed[..i] + [needed[i]];
      if needed[i] !in closure {
        closure := closure + {needed[i]};
        pending := pending + [needed[i]];
      }
    }
    assert needed[..|needed|] == needed;
  }

  lemma SmallerGap(universe: set<string>, a: set<string>, b: set<string>)
    requires a < b <= universe
    ensures |universe - b| < |universe - a|
  {
    var x :| x in b && x !in a;
    assert universe - b <= (universe - a) - {x};
    SubsetSize(universe - b, (universe - a) - {x});
  }

  lemma {:induction false} SubsetSize(a: set<string>, b: set<string>)
    requires a <= b
    ensures |a| <= |b|
  {
    if a != {} {
      var x :| x in a;
      SubsetSize(a - {x}, b - {x});
    }
  }

  /** The result is exactly what is reachable, hence the least closed superset. */
  method ExpandNativeClosure(initial: set<string>, cat: Catalogue) returns (closure: set<string>)
    ensures forall n :: n in closure <==> Reachable(initial, cat, n)
    ensures LeastClosed(closure, initial, cat)
  {
    hide Exploring, Reachable, LeastClosed, Universe;
    closure := initial;
    var pending := ListOf(initial);
    ExploreStart(initial, cat, pending);
    while |pending| > 0
      invariant Exploring(initial, cat, closure, pending)
      decreases |Universe(initial, cat) - closure|, |pending|
    {
      var name := pending[|pending| - 1];
      var rest := pending[..|pending| - 1];
      assert pending == rest + [name];
      var before := closure;
      if name !in cat {
        pending := rest;
      } else {
        closure, pending := AddDependencies(cat[name], before, rest);
      }
      ExploreTurn(initial, cat, before, rest, name, closure, pending);
      if closure != before {
        SmallerGap(Universe(initial, cat), before, closure);
      }
    }
    assert pending == [];
    ExploreDone(initial, cat, closure);
  }

  // ---------- the catalogue lock ----------

  /** A catalogued file: its name and, when it is an ELF image, what it needs. */
  datatype Entry = Entry(path: string, needed: Option<seq<string>>)

  function Provided(files: seq<Entry>): set<string> {
    set f | f in files :: f.path
  }

  /** catalogue_metadata: what the ELF files need, by path. */
  function Metadata(files: seq<Entry>): Catalogue {
    if |files| == 0 then map[]
    else
      var last := files[|files| - 1];
      var earlier := Metadata(files[..|files| - 1]);
      if last.needed.Some? then earlier[last.path := last.needed.value] else earlier
  }

  predicate Resolves(f: Entry, provided: set<string>) {
    f.needed.Some? ==> forall d :: d in f.needed.value ==> d in provided
  }

  /** Every need of every ELF file of the catalogue is provided by the catalogue. */
  predicate Resolved(files: seq<Entry>, provided: set<string>) {
    forall i :: 0 <= i < |files| ==> Resolves(files[i], provided)
  }

  lemma {:induction false} ResolvedIsClosed(files: seq<Entry>, provided: set<string>)
    requires Resolved(files, provided)
    ensures Closed(provided, Metadata(files))
  {
    if |files| > 0 {
      var last := files[|files| - 1];
      ResolvedIsClosed(files[..|files| - 1], provided);
      assert Resolves(last, provided);
    }
  }

  /** With every need resolved, a closure is fully provided exactly when its initial names are. */
  lemma ClosureProvided(files: seq<Entry>, initial: set<string>, closure: set<string>)
    requires Resolved(files, Provided(files)) && LeastClosed(closure, initial, Metadata(files))
    ensures closure <= Provided(files) <==> initial <= Provided(files)
  {
    ResolvedIsClosed(files, Provided(files));
  }

  lemma OneMore(files: seq<Entry>, i: nat, provided: set<string>)
    requires i < |files|
    ensures Resolved(files[..i + 1], provided) <==> Resolved(files[..i], provided) && Resolves(files[i], provided)
    ensures Metadata(files[..i + 1])
         == if files[i].needed.Some? then Metadata(files[..i])[files[i].path := files[i].needed.value]
            else Metadata(files[..i])
  {
    assert files[..i + 1][..i] == files[..i] && files[..i + 1][i] == files[i];
    if Resolved(files[..i + 1], provided) {
      forall k | 0 <= k < i ensures Resolves(files[..i][k], provided) { assert files[..i][k] == files[..i + 1][k]; }
    }
  }

  function LoaderName(): string { "ld-linux-x86-64.so.2" }

  function InitialNames(consumers: seq<seq<string>>): set<string> {
    {LoaderName()} + set c, d | c in consumers && d in c :: d
  }

  /** The i-th file is an ELF image, the last of its path: its needs are the recorded ones. */
  predicate Recorded(files: seq<Entry>, i: nat) {
    && i < |files| && files[i].needed.Some?
    && forall j :: i < j < |files| && files[j].needed.Some? ==> files[j].path != files[i].path
  }

  /** The loader and every consumer's needs, and with a recorded file all it needs. */
  ghost predicate SelfContained(files: seq<Entry>, consumers: seq<seq<string>>, names: set<string>) {
    && "ld-linux-x86-64.so.2" in names && (forall c, d :: c in consumers && d in c ==> d in names)
    && forall i: nat, d :: Recorded(files, i) && files[i].path in names && d in files[i].needed.value ==> d in names
  }

  lemma RecordedEarlier(files: seq<Entry>, i: nat)
    requires i + 1 < |files|
    ensures var last := files[|files| - 1];
            Recorded(files, i) <==>
            Recorded(files[..|files| - 1], i) && !(last.needed.Some? && last.path == files[i].path)
  {
    var front := files[..|files| - 1];
    assert forall j :: 0 <= j < |front| ==> front[j] == files[j];
  }

  /** A file's recorded needs are its metadata, and there is no other. */
  lemma {:induction false} MetadataIs(files: seq<Entry>, n: string)
    ensures forall i: nat :: Recorded(files, i) && files[i].path == n ==>
              n in Metadata(files) && Metadata(files)[n] == files[i].needed.value
    ensures n in Metadata(files) ==> exists i: nat :: Recorded(files, i) && files[i].path == n
  {
    if |files| > 0 {
      var front, last := files[..|files| - 1], files[|files| - 1];
      MetadataIs(front, n);
      forall i: nat | i < |front| {
        RecordedEarlier(files, i);
      }
      assert Recorded(files, |files| - 1) <==> last.needed.Some?;
      if n in Metadata(files) && !(last.needed.Some? && last.path == n) {
        var i: nat :| Recorded(front, i) && front[i].path == n;
        RecordedEarlier(files, i);
      }
    }
  }

  /** The set the closure is the least of, in plain terms. */
  lemma SelfContainedIsClosed(files: seq<Entry>, consumers: seq<seq<string>>, s: set<string>)
    ensures SelfContained(files, consumers, s) <==> InitialNames(consumers) <= s && Closed(s, Metadata(files))
  {
    forall n { MetadataIs(files, n); }
    if Closed(s, Metadata(files)) {
      forall i: nat, d | Recorded(files, i) && files[i].path in s && d in files[i].needed.value ensures d in s {
        assert Needs(Metadata(files), files[i].path, d);
      }
    }
    if SelfContained(files, consumers, s) {
      forall n, d | n in s && Needs(Metadata(files), n, d) ensures d in s {
        var i: nat :| Recorded(files, i) && files[i].path == n;
      }
    }
  }

  /** The two tests of the lock, in plain terms. */
  lemma LockTests(files: seq<Entry>, consumers: seq<seq<string>>)
    ensures Resolved(files, Provided(files)) <==>
        forall f, d :: f in files && f.needed.Some? && d in f.needed.value ==> exists g :: g in files && g.path == d
    ensures InitialNames(consumers) <= Provided(files) <==>
        && (exists g :: g in files && g.path == "ld-linux-x86-64.so.2")
        && forall c, d :: c in consumers && d in c ==> exists g :: g in files && g.path == d
  {
    var provided := Provided(files);
    assert forall d :: d in provided <==> exists g :: g in files && g.path == d;
    assert InitialNames(consumers) <= provided <==>
        LoaderName() in provided && forall c, d :: c in consumers && d in c ==> d in provided by {
      assert forall c, d :: c in consumers && d in c ==> d in InitialNames(consumers);
    }
    if Resolved(files, provided) {
      forall f, d | f in files && f.needed.Some? && d in f.needed.value ensures d in provided {
        var i :| 0 <= i < |files| && files[i] == f;
        assert Resolves(files[i], provided);
      }
    }
  }

  /** The closure part of create_native_catalogue_lock: it returns the closure exactly when
      every need of the catalogue and every direct need of a consumer is catalogued. */
  method CreateNativeCatalogueLock(files: seq<Entry>, consumers: seq<seq<string>>) returns (r: Result<set<string>>)
    ensures r.Ok? <==> Resolved(files, Provided(files)) && InitialNames(consumers) <= Provided(files)
    ensures r.Ok? ==> LeastClosed(r.value, InitialNames(consumers), Metadata(files)) && r.value <= Provided(files)
  {
    hide LeastClosed, Reachable;
    var provided := Provided(files);
    var metadata: Catalogue := map[];
    var unresolved: seq<string> := [];
    for i := 0 to |files|
      invariant metadata == Metadata(files[..i])
      invariant |unresolved| == 0 <==> Resolved(files[..i], provided)
    {
      var f := files[i];
      OneMore(files, i, provided);
      if f.needed.Some? {
        metadata := metadata[f.path := f.needed.value];
        if exists d :: d in f.needed.value && d !in provided { unresolved := unresolved + [f.path]; }
      }
    }
    assert files[..|files|] == files;
    var initial := {LoaderName()};
    for i := 0 to |consumers|
      invariant initial == InitialNames(consumers[..i])
    {
      assert consumers[..i + 1] == consumers[..i] + [consumers[i]];
      initial := initial + set d | d in consumers[i];
    }
    assert consumers[..|consumers|] == consumers;
    var closure := ExpandNativeClosure(initial, metadata);
    if |unresolved| != 0 { return Err; }
    ClosureProvided(files, initial, closure);
    if !(closure <= provided) { return Err; }
    return Ok(closure);
  }
}
