/**
  What further expansion of submodules leaves as it is: whatever selection has
  found stays found, and a module that was in the way stays there until it is
  expanded itself.
  */
module Stability {
  import opened Wrappers
  import opened Orders
  import opened Paths
  import opened Resolver
  import Glob
  import opened GlobParser
  import opened Context
  import opened Selection
  import opened Sources
  import opened ExplicitPaths
  import Trees

  // ---- Wider contexts ----

  /** `large` is `small` with some modules expanded: nothing else changes, and what is new lies below a module. */
  ghost predicate Widens(small: Entries, large: Entries) {
    && Extends(small, large)
    && (forall q <- small :: q in large)
    && (forall q <- large | q !in small :: BelowModule(small, q))
  }

  ghost predicate BelowModule(entries: Entries, q: Path) {
    exists m <- entries :: IsModule(entries, m) && m < q
  }

  lemma WidensItself(entries: Entries)
    ensures Widens(entries, entries)
  {
  }

  lemma WidensTransitive(small: Entries, middle: Entries, large: Entries)
    requires Widens(small, middle) && Widens(middle, large)
    ensures Widens(small, large)
  {
    forall q | q in large && q !in small
      ensures BelowModule(small, q)
    {
      if q !in middle {
        var m :| m in middle && IsModule(middle, m) && m < q;
        if m in small {
          assert IsModule(small, m);
        } else {
          var above :| above in small && IsModule(small, above) && above < m;
          assert above < q;
        }
      }
    }
  }

  lemma ExpandedWidens(before: Entries, stores: seq<Store>, modules: Opener, selected: Path,
                       after: Entries, grown: seq<Store>)
    requires Consistent(before, stores) && Expanded(before, stores, modules, selected, after, grown)
    ensures Consistent(after, grown) && Widens(before, after)
  {
    hide Consistent;
    ExpandedConsistent(before, stores, modules, selected, after, grown);
    ExpandedFrame(before, stores, modules, selected, after, grown);
    assert IsModule(before, selected) && selected in after;
    hide Expanded;
    forall q | q in after && q !in before
      ensures BelowModule(before, q)
    {
      assert selected < q;
    }
    assert Extends(before, after);
  }

  /** Chains of expansions only ever widen a context, and keep it consistent. */
  lemma ReachesWidens(modules: Opener, entries: Entries, stores: seq<Store>, after: Entries, grown: seq<Store>)
    requires Consistent(entries, stores) && Reaches(modules, entries, stores, after, grown)
    ensures Consistent(after, grown) && Widens(entries, after)
  {
    hide Consistent, Widens, Expansions;
    var selections :| Expansions(modules, entries, stores, selections) == Some((after, grown));
    ExpansionsWiden(modules, entries, stores, selections);
  }

  lemma {:induction false} ExpansionsWiden(modules: Opener, entries: Entries, stores: seq<Store>, selections: seq<Path>)
    requires Consistent(entries, stores) && Expansions(modules, entries, stores, selections).Some?
    ensures var (after, grown) := Expansions(modules, entries, stores, selections).value;
      Consistent(after, grown) && Widens(entries, after)
    decreases |selections|
  {
    hide Consistent, Widens, Expansion, Expanded;
    if selections == [] {
      WidensItself(entries);
    } else {
      var last := |selections| - 1;
      var (middle, known) := Expansions(modules, entries, stores, selections[..last]).value;
      var (after, grown) := Expansion(modules, middle, known, selections[last]).value;
      ExpansionsWiden(modules, entries, stores, selections[..last]);
      ExpansionExactly(modules, middle, known, selections[last], after, grown);
      ExpandedWidens(middle, known, modules, selections[last], after, grown);
      WidensTransitive(entries, middle, after);
    }
  }

  // ---- Ancestors ----

  /** Everything above a captured path is a captured directory. */
  lemma {:induction false} Above(entries: Entries, q: Path, n: nat)
    requires Rooted(entries) && q in entries && n < |q|
    ensures IsDirectory(entries, q[..n])
  {
    var parent := q[..|q| - 1];
    if n < |q| - 1 {
      Above(entries, parent, n);
      assert parent[..n] == q[..n];
    }
  }

  /** So nothing at or below a directory path lies at or below a module above it. */
  lemma NoModuleAbove(entries: Entries, path: Path, m: Path)
    requires Rooted(entries) && IsModule(entries, m) && m <= path
    ensures !(path in entries && path != m) && !IsDirectory(entries, path)
  {
    if path in entries && path != m {
      assert path[..|m|] == m;
      Above(entries, path, |m|);
    }
  }

  // ---- Resolution ----

  /** What resolution finds, it finds in every wider context. */
  lemma {:induction false} WalkStays(small: Entries, large: Entries, resolved: Path, pending: Path, links: nat)
    requires links <= MAX_LINKS && Extends(small, large) && Walk(small, resolved, pending, links).Found?
    ensures Walk(large, resolved, pending, links) == Walk(small, resolved, pending, links)
    decreases MAX_LINKS - links, |pending|
  {
    hide LinkParts;
    if pending != [] {
      var part, rest := pending[0], pending[1..];
      if part == DOT {
        WalkStays(small, large, resolved, rest, links);
      } else if part == PARENT {
        WalkStays(small, large, resolved[..|resolved| - 1], rest, links);
      } else {
        var next := resolved + [part];
        match small[next]
        case Symlink(target) => WalkStays(small, large, resolved, LinkParts(target) + rest, links + 1);
        case File(_, _, _) => WalkStays(small, large, next, rest, links);
        case Directory => WalkStays(small, large, next, rest, links);
      }
    }
  }

  /** A module that stops resolution stops it for as long as it is there. */
  lemma {:induction false} WalkStopped(small: Entries, large: Entries, resolved: Path, pending: Path, links: nat)
    requires links <= MAX_LINKS && Extends(small, large) && Walk(small, resolved, pending, links).NeedsModule?
    requires IsModule(large, Walk(small, resolved, pending, links).path)
    ensures Walk(large, resolved, pending, links) == Walk(small, resolved, pending, links)
    decreases MAX_LINKS - links, |pending|
  {
    hide LinkParts;
    var part, rest := pending[0], pending[1..];
    if part == DOT {
      WalkStopped(small, large, resolved, rest, links);
    } else if part == PARENT {
      WalkStopped(small, large, resolved[..|resolved| - 1], rest, links);
    } else {
      var next := resolved + [part];
      match small[next]
      case Module(_, _, _) =>
      case Symlink(target) => WalkStopped(small, large, resolved, LinkParts(target) + rest, links + 1);
      case File(_, _, _) => WalkStopped(small, large, next, rest, links);
      case Directory => WalkStopped(small, large, next, rest, links);
    }
  }

  /** One plain component, into a captured directory or to a module. */
  lemma WalkOn(entries: Entries, here: Path, pending: Path)
    requires pending != [] && PlainName(pending[0]) && here + [pending[0]] in entries
    ensures
      match entries[here + [pending[0]]]
      case Module(_, _, _) => Walk(entries, here, pending, 0) == NeedsModule(here + [pending[0]])
      case Directory => Walk(entries, here, pending, 0) == Walk(entries, here + [pending[0]], pending[1..], 0)
      case _ => true
  {
    hide LinkParts;
  }

  lemma FirstMoved(here: Path, pending: Path)
    requires pending != []
    ensures here + [pending[0]] + pending[1..] == here + pending
  {
  }

  /** A path through a module, spelled without "." and "..", resolves to that module. */
  lemma {:induction false} WalkToModule(entries: Entries, here: Path, pending: Path, m: Path)
    requires Rooted(entries) && IsModule(entries, m) && here < m <= here + pending && PlainPath(m)
    ensures Walk(entries, here, pending, 0) == NeedsModule(m)
    decreases |pending|
  {
    var name := m[|here|];
    var next := here + [name];
    assert pending[0] == name && PlainName(name) by {
      assert (here + pending)[|here|] == pending[0] && name in m;
    }
    assert m[..|next|] == next;
    if |next| == |m| {
      assert m == next;
    } else {
      Above(entries, m, |next|);
      FirstMoved(here, pending);
      assert next < m;
      WalkToModule(entries, next, pending[1..], m);
    }
    hide Walk, Rooted, PlainPath, PlainName;
    WalkOn(entries, here, pending);
  }

  lemma NotThroughModule(small: Entries, large: Entries, path: Path)
    requires Rooted(small) && Widens(small, large) && PlainEntries(large)
    requires path in large && path !in small
    ensures Walk(small, [], path, 0).NeedsModule? && BelowModule(small, path)
    ensures forall m | IsModule(small, m) && m < path :: Walk(small, [], path, 0) == NeedsModule(m)
  {
    hide Walk;
    forall m | IsModule(small, m) && m < path
      ensures Walk(small, [], path, 0) == NeedsModule(m)
    {
      assert forall name <- m :: name in path;
      assert [] + path == path && m != [];
      WalkToModule(small, [], path, m);
    }
  }

  // ---- The explicit part ----

  lemma EnterStays(small: Entries, large: Entries, path: Path)
    requires Rooted(small) && Widens(small, large) && PlainEntries(large) && Enter(small, path).Done?
    ensures Enter(large, path) == Enter(small, path)
  {
    hide Walk, PlainEntries, BelowModule;
    WalkStays(small, large, [], path, 0);
    if path in large && path !in small {
      NotThroughModule(small, large, path);
    }
    FoundStays(small, large, path);
  }

  /** What is found is the root, or an entry that is no module and so stays as it is. */
  lemma FoundStays(small: Entries, large: Entries, path: Path)
    requires Extends(small, large) && Walk(small, [], path, 0).Found?
    ensures var found := Walk(small, [], path, 0).path;
      && (found == [] || (found in small && !IsModule(small, found)))
      && (IsDirectory(large, found) <==> IsDirectory(small, found))
  {
    hide Walk, Physical;
    ResolvesPhysically(small, path);
  }

  lemma EnterStopped(small: Entries, large: Entries, path: Path, m: Path)
    requires Extends(small, large) && IsModule(large, m) && Enter(small, path) == Failed(ModuleNeeded(m))
    ensures Enter(large, path).Failed?
  {
    hide Walk;
    if !IsModule(small, path) {
      WalkStopped(small, large, [], path, 0);
    }
  }

  lemma {:induction false} ExplicitStays(small: Entries, large: Entries, parts: seq<string>)
    requires Rooted(small) && Widens(small, large) && PlainEntries(large) && Explicit(small, parts).Done?
    ensures Explicit(large, parts) == Explicit(small, parts)
    decreases |parts|
  {
    hide Enter, Widens, PlainEntries, Rooted;
    if parts != [] {
      var front := parts[..|parts| - 1];
      ExplicitStays(small, large, front);
      if Explicit(small, front).value.Some? {
        EnterStays(small, large, Explicit(small, front).value.value);
      }
    }
  }

  lemma {:induction false} ExplicitStopped(small: Entries, large: Entries, parts: seq<string>, m: Path)
    requires Rooted(small) && Widens(small, large) && PlainEntries(large)
    requires IsModule(large, m) && Explicit(small, parts) == Failed(ModuleNeeded(m))
    ensures Explicit(large, parts).Failed?
    decreases |parts|
  {
    hide Enter, PlainEntries, Rooted, BelowModule;
    var front := parts[..|parts| - 1];
    match Explicit(small, front)
    case Done(before) =>
      ExplicitStays(small, large, front);
      EnterStopped(small, large, before.value, m);
    case Failed(_) => ExplicitStopped(small, large, front, m);
  }

  lemma BaseStays(small: Entries, large: Entries, parts: seq<string>)
    requires Rooted(small) && Widens(small, large) && PlainEntries(large) && Base(small, parts).Done?
    ensures Base(large, parts) == Base(small, parts)
  {
    hide Enter, Explicit, Widens, PlainEntries, Rooted, FirstWild;
    var front := parts[..FirstWild(parts)];
    ExplicitStays(small, large, front);
    var path := Explicit(small, front).value;
    if path.Some? && FirstWild(parts) < |parts| {
      EnterStays(small, large, path.value);
    }
  }

  lemma BaseStopped(small: Entries, large: Entries, parts: seq<string>, m: Path)
    requires Rooted(small) && Widens(small, large) && PlainEntries(large)
    requires IsModule(large, m) && Base(small, parts) == Failed(ModuleNeeded(m))
    ensures Base(large, parts).Failed?
  {
    hide Enter, Explicit, PlainEntries, Rooted, BelowModule, FirstWild;
    var front := parts[..FirstWild(parts)];
    match Explicit(small, front)
    case Done(path) =>
      ExplicitStays(small, large, front);
      EnterStopped(small, large, path.value, m);
    case Failed(_) => ExplicitStopped(small, large, front, m);
  }

  /** A search starts at a captured directory. */
  lemma BaseIsDirectory(entries: Entries, parts: seq<string>)
    requires FirstWild(parts) < |parts| && Base(entries, parts).Done? && Base(entries, parts).value.Some?
    ensures IsDirectory(entries, Base(entries, parts).value.value)
  {
    hide Walk, Explicit, FirstWild;
  }

  // ---- The wildcard part ----

  /** Where no module obstructs them, the matches are the same in every wider context. */
  lemma MatchedStays(small: Entries, large: Entries, base: Path, parts: seq<string>)
    requires Rooted(small) && Widens(small, large) && IsDirectory(small, base)
    requires Parses(parts) && !Obstructed(small, base, parts)
    ensures Matched(large, base, parts) == Matched(small, base, parts)
  {
    hide Glob.Match, ParsePart;
    forall q
      ensures q in Matched(large, base, parts) <==> q in Matched(small, base, parts)
    {
      if q in Matched(large, base, parts) && q !in small {
        var m :| m in small && IsModule(small, m) && m < q;
        MatchedAbove(small, large, base, parts, q, m);
      }
      if q in small && q in Matched(large, base, parts) {
        forall n | |base| < n < |q|
          ensures IsDirectory(small, q[..n])
        {
          Above(small, q, n);
        }
      }
      if q in Matched(small, base, parts) {
        forall n | |base| < n < |q|
          ensures IsDirectory(large, q[..n])
        {
          assert IsDirectory(small, q[..n]);
        }
      }
    }
  }

  /** A match that is new lies below a module that matches the first components. */
  lemma MatchedAbove(small: Entries, large: Entries, base: Path, parts: seq<string>, q: Path, m: Path)
    requires Rooted(small) && IsDirectory(small, base) && IsModule(small, m) && m < q
    requires Parses(parts) && q in Matched(large, base, parts)
    ensures Obstructed(small, base, parts)
  {
    hide Glob.Match, ParsePart;
    if |m| <= |base| {
      assert m <= base;
      NoModuleAbove(small, base, m);
    } else {
      var j := |m| - |base|;
      assert Parses(parts[..j]);
      assert base <= m;
      forall i | 0 <= i < j
        ensures Glob.Match(ParsePart(parts[..j][i]).value, m[|base| + i], 0)
      {
        assert m[|base| + i] == q[|base| + i];
      }
      forall n | |base| < n < |m|
        ensures IsDirectory(small, m[..n])
      {
        Above(small, m, n);
      }
      assert m in Matched(small, base, parts[..j]);
    }
  }

  lemma ObstructedPart(entries: Entries, base: Path, parts: seq<string>, j: nat)
    requires Parses(parts) && j <= |parts| && Parses(parts[..j]) && Obstructed(entries, base, parts[..j])
    ensures Obstructed(entries, base, parts)
  {
    hide Matched, ParsePart;
    var i, q :| 0 < i < j && q in Matched(entries, base, parts[..j][..i]) && IsModule(entries, q);
    assert parts[..j][..i] == parts[..i];
  }

  lemma UnobstructedStays(small: Entries, large: Entries, base: Path, parts: seq<string>)
    requires Rooted(small) && Widens(small, large) && IsDirectory(small, base)
    requires Parses(parts) && !Obstructed(small, base, parts)
    ensures !Obstructed(large, base, parts)
  {
    hide Matched, ParsePart, Rooted, BelowModule;
    if Obstructed(large, base, parts) {
      var j, q :| 0 < j < |parts| && q in Matched(large, base, parts[..j]) && IsModule(large, q);
      if Obstructed(small, base, parts[..j]) {
        ObstructedPart(small, base, parts, j);
      }
      MatchedStays(small, large, base, parts[..j]);
      MatchedExist(small, base, parts[..j], q);
      if IsModule(small, q) {
        assert false;
      }
    }
  }

  lemma MatchedExist(entries: Entries, base: Path, parts: seq<string>, q: Path)
    requires Parses(parts) && q in Matched(entries, base, parts)
    ensures q in entries
  {
  }

  /** A match stays one. */
  lemma MatchedKept(small: Entries, large: Entries, base: Path, parts: seq<string>, q: Path)
    requires Widens(small, large) && Parses(parts) && q in Matched(small, base, parts)
    ensures q in Matched(large, base, parts)
  {
    hide Glob.Match, ParsePart, BelowModule;
    forall n | |base| < n < |q|
      ensures IsDirectory(large, q[..n])
    {
      assert IsDirectory(small, q[..n]);
    }
  }

  // ---- Whole patterns ----

  /** The paths a pattern selects stay the same. */
  lemma PicksStay(small: Entries, large: Entries, parts: seq<string>, paths: seq<Path>)
    requires Rooted(small) && Widens(small, large) && PlainEntries(large) && Picks(small, parts, paths)
    ensures Picks(large, parts, paths)
  {
    hide Base, Matched, Obstructed, ParsePart, Widens, Rooted, PlainEntries, PathLess, FirstWild;
    BaseStays(small, large, parts);
    var n := FirstWild(parts);
    var base := Base(small, parts).value;
    if base.Some? {
      ParsesPart(parts, n, |parts|);
      assert parts[n..|parts|] == parts[n..];
      if n < |parts| {
        BaseIsDirectory(small, parts);
        MatchedStays(small, large, base.value, parts[n..]);
        UnobstructedStays(small, large, base.value, parts[n..]);
      } else {
        NothingLeft(large, base.value, parts[n..]);
      }
    }
  }

  lemma NothingLeft(entries: Entries, base: Path, parts: seq<string>)
    requires parts == []
    ensures !Obstructed(entries, base, parts)
  {
    hide Matched;
  }

  /** A finished source stays finished. */
  lemma ReadyStays(small: Entries, large: Entries, source: Source)
    requires Rooted(small) && Widens(small, large) && Ready(small, source)
    ensures Ready(large, source)
  {
    hide Walk;
    var found := source.resolved;
    WalkStays(small, large, [], source.selected, 0);
    FoundStays(small, large, source.selected);
    forall q | q in large && found <= q
      ensures !large[q].Module?
    {
      if q !in small {
        var m :| m in small && IsModule(small, m) && m < q;
        assert m <= found || found <= m;
        if m <= found {
          NoModuleAbove(small, found, m);
        }
        assert false;
      }
    }
  }

  lemma PickedStays(small: Entries, large: Entries, pattern: string, sources: seq<Source>)
    requires Rooted(small) && Widens(small, large) && PlainEntries(large) && Picked(small, pattern, sources)
    ensures Picked(large, pattern, sources)
  {
    hide Picks, Ready, Widens, Rooted, PlainEntries, Parts;
    PicksStay(small, large, Parts(pattern), Names(sources));
    forall source | source in sources
      ensures Ready(large, source)
    {
      ReadyStays(small, large, source);
    }
  }

  lemma {:induction false} ChosenStays(small: Entries, large: Entries, patterns: seq<string>, sources: seq<Source>)
    requires Rooted(small) && Widens(small, large) && PlainEntries(large) && Chosen(small, patterns, sources)
    ensures Chosen(large, patterns, sources)
    decreases |patterns|
  {
    hide Picked, Widens, Rooted, PlainEntries;
    if patterns != [] {
      var last := |patterns| - 1;
      var n :| 0 <= n <= |sources| && Chosen(small, patterns[..last], sources[..n]) &&
               Picked(small, patterns[last], sources[n..]);
      ChosenStays(small, large, patterns[..last], sources[..n]);
      PickedStays(small, large, patterns[last], sources[n..]);
    }
  }

  /**
    Selection is stable: what was selected once is selected, with the same sources,
    in every context that further expansion leads to.
    */
  lemma SelectedStays(modules: Opener, entries: Entries, stores: seq<Store>, after: Entries, grown: seq<Store>,
                      patterns: seq<string>, sources: seq<Source>)
    requires Consistent(entries, stores) && PlainEntries(entries) && Selected(entries, patterns, sources)
    requires Reaches(modules, entries, stores, after, grown)
    ensures Selected(after, patterns, sources)
  {
    hide Chosen, Reaches, PlainEntries, Widens, Rooted, StoresKnown;
    ReachesWidens(modules, entries, stores, after, grown);
    ReachesPlain(modules, entries, stores, after, grown);
    ChosenStays(entries, after, patterns, sources);
  }

  // ---- Modules in the way ----

  lemma StandsStays(small: Entries, large: Entries, base: Path, parts: seq<string>, n: nat, m: Path)
    requires Widens(small, large) && StandsAmong(small, base, parts, n, m)
    ensures StandsAmong(large, base, parts, n, m)
  {
    hide Matched, Widens, ParsePart;
    var k: nat :| n < k < |parts| && Parses(parts[n..k]) && m in Matched(small, base, parts[n..k]);
    MatchedKept(small, large, base, parts[n..k], m);
  }

  lemma BlockedStays(small: Entries, large: Entries, parts: seq<string>, m: Path)
    requires Rooted(small) && Widens(small, large) && PlainEntries(large)
    requires Blocks(small, parts, m) && IsModule(large, m)
    ensures !Walkable(large, parts)
  {
    hide Base, StandsAmong, Parses, Rooted, Widens, PlainEntries, FirstWild, Obstructed;
    match Base(small, parts)
    case Failed(_) => BaseStopped(small, large, parts, m);
    case Done(base) =>
      BaseStays(small, large, parts);
      StandsStays(small, large, base.value, parts, FirstWild(parts), m);
      BlockedIsNotWalkable(large, parts, m);
  }

  lemma HeldUpStays(small: Entries, large: Entries, selected: Path, m: Path, source: Source)
    requires Extends(small, large) && HoldsUp(small, selected, m) && IsModule(large, m) && source.selected == selected
    ensures !Ready(large, source)
  {
    hide Walk;
    match Walk(small, [], selected, 0)
    case NeedsModule(_) => WalkStopped(small, large, [], selected, 0);
    case Found(_) => WalkStays(small, large, [], selected, 0);
  }

  /** A pattern that needed a module has no sources for as long as the module is there. */
  lemma NeededStays(small: Entries, large: Entries, pattern: string, m: Path, sources: seq<Source>)
    requires Rooted(small) && Widens(small, large) && PlainEntries(large)
    requires Needed(small, pattern, m) && IsModule(large, m)
    ensures !Picked(large, pattern, sources)
  {
    hide Picks, Blocks, Ready, Parts, HoldsUp, Rooted, PlainEntries, BelowModule;
    var parts := Parts(pattern);
    if Blocks(small, parts, m) {
      BlockedStays(small, large, parts, m);
      NotWalkable(large, pattern);
    } else if Picked(large, pattern, sources) {
      var paths, selected :| Picks(small, parts, paths) && selected in paths && HoldsUp(small, selected, m);
      PicksStay(small, large, parts, paths);
      OnlyPicked(large, pattern, paths);
      assert HasReady(large, selected, sources);
      var source :| source in sources && source.selected == selected && Ready(large, source);
      HeldUpStays(small, large, selected, m, source);
    }
  }

  /** A module that cannot be expanded stays, and still cannot be, whatever else is expanded. */
  lemma UnexpandableStays(modules: Opener, entries: Entries, stores: seq<Store>, selected: Path,
                          after: Entries, grown: seq<Store>, m: Path)
    requires Consistent(entries, stores) && Expanded(entries, stores, modules, selected, after, grown)
    requires IsModule(entries, m) && Expansion(modules, entries, stores, m) == None
    ensures IsModule(after, m) && Expansion(modules, after, grown, m) == None
  {
    ExpansionExactly(modules, entries, stores, selected, after, grown);
    ExpandedFrame(entries, stores, modules, selected, after, grown);
    hide Grafted, Trees.Sound;
  }

  lemma {:induction false} UnexpandableForGood(modules: Opener, entries: Entries, stores: seq<Store>, selections: seq<Path>,
                                               m: Path)
    requires Consistent(entries, stores) && IsModule(entries, m) && Expansion(modules, entries, stores, m) == None
    requires Expansions(modules, entries, stores, selections).Some?
    ensures var (after, grown) := Expansions(modules, entries, stores, selections).value;
      IsModule(after, m) && Expansion(modules, after, grown, m) == None
    decreases |selections|
  {
    hide Consistent, Expansion, Expanded, Widens;
    if selections != [] {
      var last := |selections| - 1;
      var (middle, known) := Expansions(modules, entries, stores, selections[..last]).value;
      var (after, grown) := Expansion(modules, middle, known, selections[last]).value;
      UnexpandableForGood(modules, entries, stores, selections[..last], m);
      ExpansionsWiden(modules, entries, stores, selections[..last]);
      ExpansionExactly(modules, middle, known, selections[last], after, grown);
      UnexpandableStays(modules, middle, known, selections[last], after, grown, m);
    }
  }

  /**
    Giving up at a module that patterns need and that cannot be expanded is giving
    up for good: no further expansion makes the patterns selectable.
    */
  lemma StuckForGood(modules: Opener, entries: Entries, stores: seq<Store>, patterns: seq<string>, m: Path,
                     after: Entries, grown: seq<Store>, sources: seq<Source>)
    requires Consistent(entries, stores) && PlainEntries(entries) && NeededByAny(entries, patterns, m)
    requires Expansion(modules, entries, stores, m) == None && Reaches(modules, entries, stores, after, grown)
    ensures !Selected(after, patterns, sources)
  {
    hide Expansion, Expansions, PlainEntries, Widens, Rooted, StoresKnown, Needed, Picked;
    ReachesWidens(modules, entries, stores, after, grown);
    ReachesPlain(modules, entries, stores, after, grown);
    var selections :| Expansions(modules, entries, stores, selections) == Some((after, grown));
    NeededIsModule(entries, patterns, m);
    UnexpandableForGood(modules, entries, stores, selections, m);
    var i: nat :| i < |patterns| && Needed(entries, patterns[i], m);
    if Selected(after, patterns, sources) {
      ChosenNeedsAll(after, patterns, i, sources);
      var some :| Picked(after, patterns[i], some);
      NeededStays(entries, after, patterns[i], m, some);
    }
  }
}
