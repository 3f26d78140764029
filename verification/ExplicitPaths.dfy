/**
  The explicit part of a COPY pattern against plain resolution: walking it
  component by component finds what resolving it in one go finds.
  */
module ExplicitPaths {
  import opened Wrappers
  import opened Paths
  import opened Resolver
  import opened GlobParser
  import opened Context
  import opened Selection
  import Trees

  function Named(parts: seq<string>): Path {
    seq(|parts|, i requires 0 <= i < |parts| => EncodeAll(parts[i]))
  }

  predicate PlainName(name: Name) {
    name != DOT && name != PARENT
  }

  /** Captured entries lie below the root and none is called "." or "..". */
  ghost predicate PlainEntries(entries: Entries) {
    forall q <- entries :: q != [] && forall name <- q :: PlainName(name)
  }

  predicate PlainPath(path: Path) {
    forall name <- path :: PlainName(name)
  }

  /** The listing of a sound tree is plain. */
  lemma {:induction false} ListedPlain(job: Trees.Job, store: nat, q: Path)
    requires Trees.Sound(job.children) && PlainPath(job.prefix) && q in Trees.Listed(job, store)
    ensures q != [] && PlainPath(q)
    decreases job.children
  {
    var child, rest := job.children[0], job.(children := job.children[1..]);
    var path := job.prefix + [child.name];
    Trees.SoundRest(job.children);
    assert child in job.children && PlainPath(path);
    if q in Trees.Listed(rest, store) {
      ListedPlain(rest, store, q);
    } else if q != path {
      ListedPlain(Trees.Enter(job, child), store, q);
    }
  }

  lemma SoundListingPlain(tree: Trees.Tree, place: Path, store: nat)
    requires Trees.Sound(tree.children)
    ensures PlainEntries(Trees.Listed(Trees.Job([], place, tree.children), store))
  {
    forall q | q in Trees.Listed(Trees.Job([], place, tree.children), store)
      ensures q != [] && PlainPath(q)
    {
      ListedPlain(Trees.Job([], place, tree.children), store, q);
    }
  }

  /** Expansion keeps entries plain: what it adds is listed from a sound tree below a plain path. */
  lemma ExpandedPlain(before: Entries, stores: seq<Store>, modules: Opener, selected: Path,
                      after: Entries, grown: seq<Store>)
    requires PlainEntries(before) && Expanded(before, stores, modules, selected, after, grown)
    ensures PlainEntries(after)
  {
    hide Trees.Listed, Trees.Sound;
    var job := Trees.Job(selected, [], grown[|stores|].root.children);
    assert after == (before + Trees.Listed(job, |stores|))[selected := Directory];
    forall q | q in after
      ensures q != [] && PlainPath(q)
    {
      if q !in before {
        ListedPlain(job, |stores|, q);
      }
    }
  }

  /** So entries that a chain of expansions reaches from plain ones are plain. */
  lemma ReachesPlain(modules: Opener, entries: Entries, stores: seq<Store>, after: Entries, grown: seq<Store>)
    requires PlainEntries(entries) && Reaches(modules, entries, stores, after, grown)
    ensures PlainEntries(after)
  {
    hide PlainEntries, Expansions;
    var selections :| Expansions(modules, entries, stores, selections) == Some((after, grown));
    ExpansionsPlain(modules, entries, stores, selections);
  }

  lemma {:induction false} ExpansionsPlain(modules: Opener, entries: Entries, stores: seq<Store>, selections: seq<Path>)
    requires PlainEntries(entries) && Expansions(modules, entries, stores, selections).Some?
    ensures PlainEntries(Expansions(modules, entries, stores, selections).value.0)
    decreases |selections|
  {
    hide PlainEntries, Expansion, Expanded;
    if selections != [] {
      var last := |selections| - 1;
      var (middle, known) := Expansions(modules, entries, stores, selections[..last]).value;
      var (after, grown) := Expansion(modules, middle, known, selections[last]).value;
      ExpansionsPlain(modules, entries, stores, selections[..last]);
      ExpansionExactly(modules, middle, known, selections[last], after, grown);
      ExpandedPlain(middle, known, modules, selections[last], after, grown);
    }
  }

  // ---- Physical resolution, extended at its end and in its budget ----

  /** More links to spare never change what is found. */
  lemma {:induction false} PhysicalMore(entries: Entries, cwd: Path, parts: Path, budget: nat, extra: nat)
    requires Physical(entries, cwd, parts, budget).Some?
    ensures
      var (path, left) := Physical(entries, cwd, parts, budget).value;
      Physical(entries, cwd, parts, budget + extra) == Some((path, left + extra))
    decreases budget, |parts|
  {
    if parts != [] {
      LookupMore(entries, cwd, parts[0], budget, extra);
      var (next, left) := Lookup(entries, cwd, parts[0], budget).value;
      PhysicalMore(entries, next, parts[1..], left, extra);
    }
  }

  lemma {:induction false} LookupMore(entries: Entries, cwd: Path, part: Name, budget: nat, extra: nat)
    requires Lookup(entries, cwd, part, budget).Some?
    ensures
      var (path, left) := Lookup(entries, cwd, part, budget).value;
      Lookup(entries, cwd, part, budget + extra) == Some((path, left + extra))
    decreases budget, 0
  {
    if part != DOT && part != PARENT && entries[cwd + [part]].Symlink? {
      PhysicalMore(entries, cwd, LinkParts(entries[cwd + [part]].target), budget - 1, extra);
    }
  }

  /** The last component is looked up in the directory the others lead to. */
  lemma {:induction false} PhysicalLast(entries: Entries, cwd: Path, parts: Path, last: Name, budget: nat)
    requires IsDirectory(entries, cwd)
    ensures Physical(entries, cwd, parts + [last], budget) ==
            match Physical(entries, cwd, parts, budget)
            case None => None
            case Some((dir, left)) => if IsDirectory(entries, dir) then Lookup(entries, dir, last, left) else None
    decreases |parts|
  {
    hide Lookup;
    var all := parts + [last];
    if parts == [] {
      assert all[0] == last && all[1..] == [];
    } else {
      assert all[0] == parts[0] && all[1..] == parts[1..] + [last];
      match Lookup(entries, cwd, parts[0], budget)
      case None =>
      case Some((next, left)) =>
        if IsDirectory(entries, next) {
          PhysicalLast(entries, next, parts[1..], last, left);
        }
    }
  }

  /** A captured directory resolves to itself without following links. */
  lemma {:induction false} DirectPhysical(entries: Entries, cwd: Path, rest: Path, budget: nat)
    requires PlainEntries(entries) && Anchored(entries, cwd + rest) && IsDirectory(entries, cwd + rest)
    ensures Physical(entries, cwd, rest, budget) == Some((cwd + rest, budget))
    decreases |rest|
  {
    if rest == [] {
      assert cwd + rest == cwd;
    } else {
      var path, next := cwd + rest, cwd + [rest[0]];
      assert path == next + rest[1..];
      assert path[..|next|] == next;
      assert rest[0] == path[|cwd|] && path[|cwd|] in path;
      if rest[1..] == [] {
        assert path == next;
      }
      assert IsDirectory(entries, next);
      DirectPhysical(entries, next, rest[1..], budget);
    }
  }

  // ---- One lookup past a captured directory ----

  /** A path whose parent is a captured directory, so resolving it is one lookup. */
  ghost predicate Reached(entries: Entries, q: Path) {
    q != [] ==>
      var dir := q[..|q| - 1];
      Anchored(entries, dir) && IsDirectory(entries, dir) && PlainName(q[|q| - 1])
  }

  lemma ReachedResolves(entries: Entries, q: Path)
    requires PlainEntries(entries) && Reached(entries, q) && q != []
    ensures Physical(entries, [], q, MAX_LINKS) == Lookup(entries, q[..|q| - 1], q[|q| - 1], MAX_LINKS)
  {
    hide Physical, Lookup, Anchored;
    var dir := q[..|q| - 1];
    assert q == dir + [q[|q| - 1]];
    assert [] + dir == dir;
    PhysicalLast(entries, [], dir, q[|q| - 1], MAX_LINKS);
    DirectPhysical(entries, [], dir, MAX_LINKS);
  }

  /** Entering a reached path: what it resolves to, if that is a directory. */
  lemma ReachedEnters(entries: Entries, q: Path)
    requires PlainEntries(entries) && Reached(entries, q)
    ensures
      match Walk(entries, [], q, 0)
      case Found(dir) =>
        && Selection.Enter(entries, q) == Done(if IsDirectory(entries, dir) then Some(dir) else None)
        && Anchored(entries, dir)
      case _ => Selection.Enter(entries, q).Failed?
  {
    hide Walk, Anchored, Physical;
    ResolvesPhysically(entries, q);
    if q != [] {
      ReachedResolves(entries, q);
      assert q == q[..|q| - 1] + [q[|q| - 1]];
    }
  }

  // ---- Component by component ----

  /** Resolving one component after the other, each with the whole link budget. */
  ghost function Stepwise(entries: Entries, cwd: Path, parts: Path): Option<Path>
    decreases |parts|
  {
    if parts == [] then Some(cwd)
    else
      var (next, _) :- Lookup(entries, cwd, parts[0], MAX_LINKS);
      if parts[1..] != [] && !IsDirectory(entries, next) then None
      else Stepwise(entries, next, parts[1..])
  }

  lemma {:induction false} StepwiseLast(entries: Entries, cwd: Path, parts: Path, last: Name)
    requires IsDirectory(entries, cwd)
    ensures Stepwise(entries, cwd, parts + [last]) ==
            match Stepwise(entries, cwd, parts)
            case None => None
            case Some(dir) =>
              if IsDirectory(entries, dir) && Lookup(entries, dir, last, MAX_LINKS).Some?
              then Some(Lookup(entries, dir, last, MAX_LINKS).value.0) else None
    decreases |parts|
  {
    hide Lookup;
    var all := parts + [last];
    if parts == [] {
      assert all[0] == last && all[1..] == [];
    } else {
      assert all[0] == parts[0] && all[1..] == parts[1..] + [last];
      match Lookup(entries, cwd, parts[0], MAX_LINKS)
      case None =>
      case Some((next, _)) =>
        if IsDirectory(entries, next) {
          StepwiseLast(entries, next, parts[1..], last);
        }
    }
  }

  /** Resolving a path at once succeeds only where resolving it stepwise does, with the same result. */
  lemma {:induction false} PhysicalStepwise(entries: Entries, cwd: Path, parts: Path, budget: nat)
    requires budget <= MAX_LINKS && Physical(entries, cwd, parts, budget).Some?
    ensures Stepwise(entries, cwd, parts) == Some(Physical(entries, cwd, parts, budget).value.0)
    decreases |parts|
  {
    hide Lookup;
    if parts != [] {
      var (next, left) := Lookup(entries, cwd, parts[0], budget).value;
      LookupMore(entries, cwd, parts[0], budget, MAX_LINKS - budget);
      PhysicalStepwise(entries, next, parts[1..], left);
    }
  }

  /**
    What an explicit pattern selects, exactly: the walk yields a path that
    resolves if and only if the components resolve one after the other, each with
    a fresh budget of 40 links, and then it resolves to the same place.
    */
  lemma {:induction false} ExplicitExactly(entries: Entries, parts: seq<string>)
    requires PlainEntries(entries) && forall part <- parts :: PlainName(EncodeAll(part))
    ensures
      var stepwise := Stepwise(entries, [], Named(parts));
      match Explicit(entries, parts)
      case Done(Some(q)) =>
        && Reached(entries, q)
        && (match stepwise
            case Some(path) => Walk(entries, [], q, 0) == Found(path)
            case None => !Walk(entries, [], q, 0).Found?)
      case _ => stepwise == None
    decreases |parts|
  {
    hide Lookup, Anchored, Enter, EncodeAll, Walk, Physical, PlainEntries, Reached;
    if parts == [] {
      assert Named(parts) == [];
      RootReached(entries);
    } else {
      var last, front := parts[|parts| - 1], parts[..|parts| - 1];
      assert Named(parts) == Named(front) + [EncodeAll(last)];
      StepwiseLast(entries, [], Named(front), EncodeAll(last));
      assert forall part <- front :: part in parts;
      ExplicitExactly(entries, front);
      hide Stepwise;
      match Explicit(entries, front) {
        case Done(Some(q)) =>
          ReachedEnters(entries, q);
          if Enter(entries, q).Done? && Enter(entries, q).value.Some? {
            NextReached(entries, Enter(entries, q).value.value, EncodeAll(last));
          }
        case _ =>
      }
    }
  }

  lemma RootReached(entries: Entries)
    ensures Reached(entries, []) && Walk(entries, [], [], 0) == Found([])
  {
  }

  /** One more component of a captured directory is reached, and resolves as it looks up. */
  lemma NextReached(entries: Entries, dir: Path, name: Name)
    requires PlainEntries(entries) && Anchored(entries, dir) && IsDirectory(entries, dir) && PlainName(name)
    ensures Reached(entries, dir + [name])
    ensures
      match Lookup(entries, dir, name, MAX_LINKS)
      case Some((path, _)) => Walk(entries, [], dir + [name], 0) == Found(path)
      case None => !Walk(entries, [], dir + [name], 0).Found?
  {
    hide Lookup, Anchored, Walk, Physical;
    var q := dir + [name];
    assert q[..|q| - 1] == dir && q[|q| - 1] == name;
    ReachedResolves(entries, q);
    ResolvesPhysically(entries, q);
    var r := Lookup(entries, dir, name, MAX_LINKS);
    assert r.Some? ==> r == Some((r.value.0, r.value.1));
  }

  /** So whatever plain resolution finds, an explicit pattern selects. */
  lemma ExplicitFindsResolved(entries: Entries, parts: seq<string>, found: Path)
    requires PlainEntries(entries) && forall part <- parts :: PlainName(EncodeAll(part))
    requires Walk(entries, [], Named(parts), 0) == Found(found)
    ensures Explicit(entries, parts).Done? && Explicit(entries, parts).value.Some?
    ensures Walk(entries, [], Explicit(entries, parts).value.value, 0) == Found(found)
  {
    hide Walk, Physical, EncodeAll, Explicit, Anchored, PlainEntries, Stepwise;
    ResolvesPhysically(entries, Named(parts));
    PhysicalStepwise(entries, [], Named(parts), MAX_LINKS);
    ExplicitExactly(entries, parts);
  }
}
