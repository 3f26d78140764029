/** The sources of COPY patterns, the modules in their way, and the entries below a source. */
module Sources {
  import opened Wrappers
  import opened Strings
  import opened Orders
  import opened Paths
  import opened Resolver
  import opened Context
  import opened Selection

  /** A selected name and what it resolves to. */
  datatype Source = Source(selected: Path, resolved: Path)

  function Names(sources: seq<Source>): seq<Path> {
    seq(|sources|, i requires 0 <= i < |sources| => sources[i].selected)
  }

  /** The components of a pattern: empty ones and "." say nothing. */
  function Parts(pattern: string): seq<string> {
    Meaningful(Split(pattern, '/'))
  }

  function Meaningful(parts: seq<string>): seq<string> {
    if parts == [] then []
    else (if parts[0] == "" || parts[0] == "." then [] else [parts[0]]) + Meaningful(parts[1..])
  }

  // ---- What selection should give ----

  /** No module is left in the subtree at `path`. */
  predicate Settled(entries: Entries, path: Path) {
    forall q <- entries :: path <= q ==> !entries[q].Module?
  }

  predicate Ready(entries: Entries, source: Source) {
    Walk(entries, [], source.selected, 0) == Found(source.resolved) && Settled(entries, source.resolved)
  }

  ghost predicate Picked(entries: Entries, pattern: string, sources: seq<Source>) {
    && sources != [] && Picks(entries, Parts(pattern), Names(sources))
    && forall source <- sources :: Ready(entries, source)
  }

  /** The sources of all patterns, one pattern after the other. */
  ghost predicate Chosen(entries: Entries, patterns: seq<string>, sources: seq<Source>) {
    if patterns == [] then sources == []
    else
      var last := |patterns| - 1;
      exists n | 0 <= n <= |sources| ::
        Chosen(entries, patterns[..last], sources[..n]) && Picked(entries, patterns[last], sources[n..])
  }

  ghost predicate Selected(entries: Entries, patterns: seq<string>, sources: seq<Source>) {
    sources != [] && Chosen(entries, patterns, sources)
  }

  // ---- Modules in the way ----

  /** A selected path that cannot be finished while there is a module at `path`. */
  ghost predicate HoldsUp(entries: Entries, selected: Path, path: Path) {
    IsModule(entries, path) &&
    match Walk(entries, [], selected, 0)
    case NeedsModule(module_) => module_ == path
    case Found(resolved) => resolved <= path
    case _ => false
  }

  /** One of the paths that a pattern selects is held up. */
  ghost predicate PickHeldUp(entries: Entries, parts: seq<string>, path: Path) {
    exists paths: seq<Path>, selected: Path | Picks(entries, parts, paths) && selected in paths ::
      HoldsUp(entries, selected, path)
  }

  /** The module at `path` keeps a pattern from having sources. */
  ghost predicate Needed(entries: Entries, pattern: string, path: Path) {
    Blocks(entries, Parts(pattern), path) || PickHeldUp(entries, Parts(pattern), path)
  }

  ghost predicate NeededByAny(entries: Entries, patterns: seq<string>, path: Path) {
    exists i: nat | i < |patterns| :: Needed(entries, patterns[i], path)
  }

  lemma NeededIsModule(entries: Entries, patterns: seq<string>, path: Path)
    requires NeededByAny(entries, patterns, path)
    ensures IsModule(entries, path)
  {
    hide Picks, Walk, Base, StandsAmong;
    var i: nat :| i < |patterns| && Needed(entries, patterns[i], path);
  }

  lemma PicksOnce(entries: Entries, parts: seq<string>, a: seq<Path>, b: seq<Path>)
    requires Picks(entries, parts, a) && Picks(entries, parts, b)
    ensures a == b
  {
    hide Walkable, Matched, PathLess, Base, Parses;
    PathOrder();
    if Base(entries, parts).value.Some? && FirstWild(parts) < |parts| {
      SortedUnique(PathLess, a, b);
    }
  }

  lemma PickedOnce(entries: Entries, pattern: string, a: seq<Source>, b: seq<Source>)
    requires Picked(entries, pattern, a) && Picked(entries, pattern, b)
    ensures a == b
  {
    hide Picks, Walk, Settled;
    PicksOnce(entries, Parts(pattern), Names(a), Names(b));
    forall i | 0 <= i < |a|
      ensures a[i] == b[i]
    {
      assert Names(a)[i] == Names(b)[i];
      assert Ready(entries, a[i]) && Ready(entries, b[i]);
    }
  }

  /** The entries and the patterns determine the sources. */
  lemma {:induction false} ChosenOnce(entries: Entries, patterns: seq<string>, a: seq<Source>, b: seq<Source>)
    requires Chosen(entries, patterns, a) && Chosen(entries, patterns, b)
    ensures a == b
    decreases |patterns|
  {
    hide Picked;
    if patterns != [] {
      var last := |patterns| - 1;
      var m :| 0 <= m <= |a| && Chosen(entries, patterns[..last], a[..m]) && Picked(entries, patterns[last], a[m..]);
      var n :| 0 <= n <= |b| && Chosen(entries, patterns[..last], b[..n]) && Picked(entries, patterns[last], b[n..]);
      ChosenOnce(entries, patterns[..last], a[..m], b[..n]);
      PickedOnce(entries, patterns[last], a[m..], b[n..]);
      assert a == a[..m] + a[m..] && b == b[..n] + b[n..];
    }
  }

  /** A pattern without sources leaves every longer list without. */
  lemma {:induction false} ChosenNeedsAll(entries: Entries, patterns: seq<string>, i: nat, sources: seq<Source>)
    requires i < |patterns| && Chosen(entries, patterns, sources)
    ensures exists some :: Picked(entries, patterns[i], some)
    decreases |patterns|
  {
    hide Picked;
    var last := |patterns| - 1;
    var n :| 0 <= n <= |sources| && Chosen(entries, patterns[..last], sources[..n]) &&
             Picked(entries, patterns[last], sources[n..]);
    if i < last {
      ChosenNeedsAll(entries, patterns[..last], i, sources[..n]);
    }
  }

  // ---- Selection ----

  /** A module at or below `path`, if there is one. */
  method FindModule(index: Index, path: Path) returns (found: Option<Path>)
    requires index.Valid()
    ensures found == None <==> Settled(index.entries, path)
    ensures found.Some? ==> path <= found.value && IsModule(index.entries, found.value)
  {
    hide PathLess;
    for i := 0 to |index.keys|
      invariant forall q <- index.keys[..i] :: path <= q ==> !index.entries[q].Module?
    {
      var q := index.keys[i];
      assert q in index.keys && index.keys[..i + 1] == index.keys[..i] + [q];
      if path <= q && index.entries[q].Module? {
        return Some(q);
      }
    }
    assert index.keys[..|index.keys|] == index.keys;
    return None;
  }

  /** Resolve one selected path. */
  method Finish(index: Index, selected: Path) returns (source: Result<Source>)
    requires index.Valid()
    ensures
      match source
      case Done(s) => s.selected == selected && Ready(index.entries, s)
      case Failed(failure) =>
        && (forall s: Source | s.selected == selected :: !Ready(index.entries, s))
        && (failure.ModuleNeeded? ==> HoldsUp(index.entries, selected, failure.path))
  {
    hide Walk;
    var outcome := Resolve(index.entries, selected);
    match outcome {
      case Found(resolved) =>
        var needed := FindModule(index, resolved);
        match needed {
          case Some(path) => return Failed(ModuleNeeded(path));
          case None => return Done(Source(selected, resolved));
        }
      case NeedsModule(path) =>
        NeedsLiveModule(index.entries, [], selected, 0);
        return Failed(ModuleNeeded(path));
      case _ => return Failed(Unresolved);
    }
  }

  /** Keep the existing paths. */
  function Retain(entries: Entries, paths: seq<Path>): seq<Path> {
    if paths == [] then []
    else (if paths[0] == [] || paths[0] in entries then [paths[0]] else []) + Retain(entries, paths[1..])
  }

  lemma {:induction false} RetainAll(entries: Entries, paths: seq<Path>)
    requires forall path <- paths :: path in entries
    ensures Retain(entries, paths) == paths
  {
    if paths != [] {
      RetainAll(entries, paths[1..]);
    }
  }

  /** A wildcard walk only ever selects what exists. */
  lemma PicksExist(entries: Entries, parts: seq<string>, paths: seq<Path>)
    requires Picks(entries, parts, paths) && FirstWild(parts) < |parts|
    ensures forall path <- paths :: path in entries
  {
    hide Walkable, Base, Matching, Parses;
  }

  /** The sources of one pattern. */
  method SelectPattern(index: Index, pattern: string) returns (picked: Result<seq<Source>>)
    requires index.Valid()
    ensures
      match picked
      case Done(sources) => Picked(index.entries, pattern, sources)
      case Failed(failure) =>
        && (forall sources :: !Picked(index.entries, pattern, sources))
        && (failure.ModuleNeeded? ==> Needed(index.entries, pattern, failure.path))
  {
    hide Picks, Parts, Ready, FirstWild, Blocks, HoldsUp;
    var parts := Parts(pattern);
    var outcome := SelectPaths(index, parts);
    if outcome.Failed? {
      NotWalkable(index.entries, pattern);
      return Failed(outcome.failure);
    }
    var paths := outcome.value;
    if FirstWild(parts) < |parts| {
      PicksExist(index.entries, parts, paths);
      RetainAll(index.entries, paths);
      paths := Retain(index.entries, paths);
    }
    if paths == [] {
      OnlyPicked(index.entries, pattern, paths);
      return Failed(NoMatch);
    }
    var sources: seq<Source> := [];
    for i := 0 to |paths|
      invariant Names(sources) == paths[..i]
      invariant forall source <- sources :: Ready(index.entries, source)
    {
      var source := Finish(index, paths[i]);
      if source.Failed? {
        OnlyPicked(index.entries, pattern, paths);
        assert paths[i] in paths;
        return Failed(source.failure);
      }
      sources := sources + [source.value];
      assert Names(sources) == paths[..i] + [paths[i]];
    }
    assert paths[..|paths|] == paths;
    return Done(sources);
  }

  lemma NotWalkable(entries: Entries, pattern: string)
    requires !Walkable(entries, Parts(pattern))
    ensures forall sources :: !Picked(entries, pattern, sources)
  {
    hide Walkable, Parts;
  }

  ghost predicate HasReady(entries: Entries, path: Path, sources: seq<Source>) {
    exists source <- sources :: source.selected == path && Ready(entries, source)
  }

  lemma OnlyPicked(entries: Entries, pattern: string, paths: seq<Path>)
    requires Picks(entries, Parts(pattern), paths)
    ensures forall sources: seq<Source> | Picked(entries, pattern, sources) ::
              paths != [] && forall path <- paths :: HasReady(entries, path, sources)
  {
    hide Picks, Parts, Ready;
    forall sources: seq<Source> | Picked(entries, pattern, sources)
      ensures paths != [] && forall path <- paths :: HasReady(entries, path, sources)
    {
      PicksOnce(entries, Parts(pattern), paths, Names(sources));
      forall path | path in paths
        ensures HasReady(entries, path, sources)
      {
        var i :| 0 <= i < |paths| && paths[i] == path;
        assert Names(sources)[i] == sources[i].selected;
        assert sources[i] in sources;
      }
    }
  }

  /** Selection of all patterns: it succeeds exactly when the sources exist. */
  method SelectSources(index: Index, patterns: seq<string>) returns (selected: Result<seq<Source>>)
    requires index.Valid()
    ensures
      match selected
      case Done(sources) => Selected(index.entries, patterns, sources)
      case Failed(failure) =>
        && (forall sources :: !Selected(index.entries, patterns, sources))
        && (failure.ModuleNeeded? ==> NeededByAny(index.entries, patterns, failure.path))
  {
    hide Picked, Needed;
    var sources: seq<Source> := [];
    for i := 0 to |patterns|
      invariant Chosen(index.entries, patterns[..i], sources) && (i > 0 ==> sources != [])
    {
      var picked := SelectPattern(index, patterns[i]);
      if picked.Failed? {
        forall others | Chosen(index.entries, patterns, others)
          ensures false
        {
          ChosenNeedsAll(index.entries, patterns, i, others);
        }
        return Failed(picked.failure);
      }
      PickedSome(index.entries, patterns[i], picked.value);
      ChosenNext(index.entries, patterns, i, sources, picked.value);
      sources := sources + picked.value;
    }
    assert patterns[..|patterns|] == patterns;
    if sources == [] {
      return Failed(NoMatch);
    }
    return Done(sources);
  }

  lemma PickedSome(entries: Entries, pattern: string, sources: seq<Source>)
    requires Picked(entries, pattern, sources)
    ensures sources != []
  {
  }

  lemma ChosenNext(entries: Entries, patterns: seq<string>, i: nat, sources: seq<Source>, more: seq<Source>)
    requires i < |patterns| && Chosen(entries, patterns[..i], sources) && Picked(entries, patterns[i], more)
    ensures Chosen(entries, patterns[..i + 1], sources + more)
  {
    hide Picked;
    var next, all := patterns[..i + 1], sources + more;
    assert next[..i] == patterns[..i] && next[i] == patterns[i];
    assert all[..|sources|] == sources && all[|sources|..] == more;
  }

  // ---- Descendants ----

  /** The entries below a source, relative to it, from the index; none below a file. */
  function Descendants(index: Index, source: Source): seq<(Path, Entry)>
    requires index.Valid()
  {
    if !IsDirectory(index.entries, source.resolved) then []
    else
      RangeMembers(index, source.resolved);
      Relative(index.entries, source.resolved, Range(index.keys, source.resolved))
  }

  function Relative(entries: Entries, from: Path, run: seq<Path>): seq<(Path, Entry)>
    requires forall q <- run :: q in entries && from <= q
  {
    if run == [] then []
    else
      assert run[0] in run && forall other <- run[1..] :: other in run;
      (if run[0] == from then [] else [(run[0][|from|..], entries[run[0]])]) + Relative(entries, from, run[1..])
  }

  lemma RangeMembers(index: Index, from: Path)
    requires index.Valid()
    ensures forall q :: q in Range(index.keys, from) <==> q in index.entries && from <= q
  {
    hide PathLess, Range;
    RangeIsFilter(index.keys, from);
    UnderMembers(index.keys, from);
  }

  lemma {:induction false} RelativeMembers(entries: Entries, from: Path, run: seq<Path>, q: Path, entry: Entry)
    requires forall q <- run :: q in entries && from <= q
    ensures (q, entry) in Relative(entries, from, run) <==>
              q != [] && from + q in run && entries[from + q] == entry
  {
    if run != [] {
      assert run[0] in run && forall other <- run[1..] :: other in run;
      RelativeMembers(entries, from, run[1..], q, entry);
      assert from + q == run[0] <==> q == run[0][|from|..];
      assert from + q in run <==> from + q == run[0] || from + q in run[1..];
      assert run[0] == from <==> run[0][|from|..] == [];
    }
  }

  /**
    The range scan yields the subtree: exactly the captured entries strictly
    below a directory source, none of them a module, and nothing below a file.
    */
  lemma DescendantsAreSubtree(index: Index, source: Source, q: Path, entry: Entry)
    requires index.Valid() && Ready(index.entries, source)
    ensures (q, entry) in Descendants(index, source) <==>
              && IsDirectory(index.entries, source.resolved)
              && q != [] && source.resolved + q in index.entries && index.entries[source.resolved + q] == entry
    ensures (q, entry) in Descendants(index, source) ==> !entry.Module?
  {
    hide PathLess, Range, Walk;
    if IsDirectory(index.entries, source.resolved) {
      RangeMembers(index, source.resolved);
      RelativeMembers(index.entries, source.resolved, Range(index.keys, source.resolved), q, entry);
    }
  }
}
