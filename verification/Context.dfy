/**
  A captured commit: its entries, the object stores they came from, and the
  expansion of submodules on demand.
  */
module Context {
  import opened Wrappers
  import opened Bytes
  import opened Paths
  import opened Resolver
  import opened Trees
  import opened Scan

  const MAX_DEPTH := 8

  /** An opened repository at one commit, `depth` submodules below the superproject. */
  datatype Store = Store(repository: nat, root: Tree, depth: nat)

  /**
    What opening a module finds for a parent repository, its root tree, the
    module's path there and its commit: a staged repository and its root tree.
    */
  type Opener = (nat, Tree, Path, Oid) -> Option<(nat, Tree)>

  /** The store that opening a module of `parent` adds. */
  function Opened(modules: Opener, parent: Store, place: Path, oid: Oid): Option<Store> {
    if parent.depth + 1 > MAX_DEPTH then None
    else
      var (repository, root) :- modules(parent.repository, parent.root, place, oid);
      Some(Store(repository, root, parent.depth + 1))
  }

  /** Every entry lies in a captured directory, so nothing lies below a module. */
  ghost predicate Rooted(entries: Entries) {
    forall q <- entries :: q != [] && IsDirectory(entries, q[..|q| - 1])
  }

  ghost predicate StoresKnown(entries: Entries, stores: seq<Store>) {
    forall q <- entries ::
      (entries[q].Module? || entries[q].File?) ==> entries[q].store < |stores|
  }

  ghost predicate Consistent(entries: Entries, stores: seq<Store>) {
    && Rooted(entries) && StoresKnown(entries, stores)
    && forall store <- stores :: store.depth <= MAX_DEPTH
  }

  lemma {:induction false} NothingBelowLeaf(entries: Entries, leaf: Path, q: Path)
    requires Rooted(entries) && leaf in entries && !entries[leaf].Directory? && leaf < q
    ensures q !in entries
  {
    var parent := q[..|q| - 1];
    if |q| > |leaf| + 1 {
      assert leaf < parent;
      NothingBelowLeaf(entries, leaf, parent);
    } else {
      assert parent == leaf;
    }
  }

  /** The entries after the module at `selected` has been replaced by its tree. */
  ghost function Grafted(entries: Entries, selected: Path, tree: Tree, store: nat): Entries {
    (entries + Listed(Job(selected, [], tree.children), store))[selected := Directory]
  }

  /** The whole state after a successful expansion of one module. */
  ghost predicate Expanded(before: Entries, stores: seq<Store>, modules: Opener, selected: Path,
                           after: Entries, grown: seq<Store>)
  {
    && selected in before && before[selected].Module? && before[selected].store < |stores|
    && var added := Opened(modules, stores[before[selected].store], before[selected].path, before[selected].oid);
       && added.Some? && Sound(added.value.root.children)
       && grown == stores + [added.value]
       && after == Grafted(before, selected, added.value.root, |stores|)
  }

  /** A listing hangs together: every path in it lies in a directory of it. */
  lemma {:induction false} ListedRooted(job: Job, store: nat, q: Path)
    requires Sound(job.children) && q in Listed(job, store)
    ensures q[..|q| - 1] == job.prefix ||
            (q[..|q| - 1] in Listed(job, store) && Listed(job, store)[q[..|q| - 1]].Directory?)
    decreases job.children
  {
    var child, rest := job.children[0], job.(children := job.children[1..]);
    var path := job.prefix + [child.name];
    SoundRest(job.children);
    SiblingsDisjoint(job, store);
    if q in Listed(rest, store) {
      ListedRooted(rest, store, q);
    } else if q != path {
      ListedRooted(Enter(job, child), store, q);
    } else {
      assert q[..|q| - 1] == job.prefix;
    }
  }

  /** The stores that listed entries name. */
  lemma {:induction false} ListedStores(job: Job, store: nat)
    ensures forall q <- Listed(job, store) ::
              (Listed(job, store)[q].Module? || Listed(job, store)[q].File?) ==> Listed(job, store)[q].store == store
    decreases job.children
  {
    if job.children != [] {
      var child, rest := job.children[0], job.(children := job.children[1..]);
      ListedStores(rest, store);
      if child.node.Dir? {
        ListedStores(Enter(job, child), store);
      }
      var own := ListedChild(job, child, store);
      assert Listed(job, store) == own + Listed(rest, store);
      forall q | q in Listed(job, store)
        ensures var entry := Listed(job, store)[q]; (entry.Module? || entry.File?) ==> entry.store == store
      {
        if q in Listed(rest, store) {
          assert Listed(job, store)[q] == Listed(rest, store)[q];
        } else if q == job.prefix + [child.name] {
          assert Listed(job, store)[q] == EntryOf(child.node, store, job.place + [child.name]);
        } else {
          assert q in own && child.node.Dir? && q in Listed(Enter(job, child), store);
          assert own[q] == Listed(Enter(job, child), store)[q];
        }
      }
    }
  }

  /** Expansion keeps the context consistent. */
  lemma ExpandedConsistent(before: Entries, stores: seq<Store>, modules: Opener, selected: Path,
                           after: Entries, grown: seq<Store>)
    requires Consistent(before, stores) && Expanded(before, stores, modules, selected, after, grown)
    ensures Consistent(after, grown)
  {
    var root := grown[|stores|].root;
    var job := Job(selected, [], root.children);
    var listed := Listed(job, |stores|);
    ListedStores(job, |stores|);
    forall q | q in after
      ensures q != [] && IsDirectory(after, q[..|q| - 1])
    {
      if q in listed && q != selected {
        ListedRooted(job, |stores|, q);
      } else {
        var parent := q[..|q| - 1];
        assert IsDirectory(before, parent);
        if parent in listed {
          NothingBelowLeaf(before, selected, parent);
        }
      }
    }
  }

  /**
    Expansion adds only paths below the expanded module and changes only that
    one entry, into a directory.
    */
  lemma ExpandedFrame(before: Entries, stores: seq<Store>, modules: Opener, selected: Path,
                      after: Entries, grown: seq<Store>)
    requires Consistent(before, stores) && Expanded(before, stores, modules, selected, after, grown)
    ensures forall q <- before | q != selected :: q in after && after[q] == before[q]
    ensures after[selected] == Directory
    ensures forall q <- after | q !in before :: selected < q
  {
    forall q | q in before && selected < q
      ensures false
    {
      NothingBelowLeaf(before, selected, q);
    }
  }

  // ---- Chains of expansions ----

  /** What expanding the module at `selected` gives, where it is possible. */
  ghost function Expansion(modules: Opener, entries: Entries, stores: seq<Store>, selected: Path):
    Option<(Entries, seq<Store>)>
  {
    if !IsModule(entries, selected) || entries[selected].store >= |stores| then None
    else
      var module_ := entries[selected];
      var added :- Opened(modules, stores[module_.store], module_.path, module_.oid);
      if Sound(added.root.children) then Some((Grafted(entries, selected, added.root, |stores|), stores + [added]))
      else None
  }

  lemma ExpansionExactly(modules: Opener, before: Entries, stores: seq<Store>, selected: Path,
                         after: Entries, grown: seq<Store>)
    ensures Expansion(modules, before, stores, selected) == Some((after, grown)) <==>
            Expanded(before, stores, modules, selected, after, grown)
  {
    hide Grafted, Sound;
  }

  /** Expanding the modules at `selections`, one after the other. */
  ghost function Expansions(modules: Opener, entries: Entries, stores: seq<Store>, selections: seq<Path>):
    Option<(Entries, seq<Store>)>
  {
    if selections == [] then Some((entries, stores))
    else
      var last := |selections| - 1;
      var (middle, known) :- Expansions(modules, entries, stores, selections[..last]);
      Expansion(modules, middle, known, selections[last])
  }

  /** Some chain of expansions leads from one context to the other. */
  ghost predicate Reaches(modules: Opener, entries: Entries, stores: seq<Store>, after: Entries, grown: seq<Store>) {
    exists selections: seq<Path> :: Expansions(modules, entries, stores, selections) == Some((after, grown))
  }

  lemma ReachesItself(modules: Opener, entries: Entries, stores: seq<Store>)
    ensures Reaches(modules, entries, stores, entries, stores)
  {
    assert Expansions(modules, entries, stores, []) == Some((entries, stores));
  }

  lemma ReachesNext(modules: Opener, entries: Entries, stores: seq<Store>, middle: Entries, known: seq<Store>,
                    selected: Path, after: Entries, grown: seq<Store>)
    requires Reaches(modules, entries, stores, middle, known)
    requires Expanded(middle, known, modules, selected, after, grown)
    ensures Reaches(modules, entries, stores, after, grown)
  {
    hide Expansion, Expanded;
    var selections :| Expansions(modules, entries, stores, selections) == Some((middle, known));
    var more := selections + [selected];
    assert more[..|selections|] == selections && more[|selections|] == selected;
    ExpansionExactly(modules, middle, known, selected, after, grown);
    assert Expansions(modules, entries, stores, more) == Some((after, grown));
  }

  lemma {:induction false} ExpansionsConcat(modules: Opener, entries: Entries, stores: seq<Store>,
                                            first: seq<Path>, second: seq<Path>)
    requires Expansions(modules, entries, stores, first).Some?
    ensures Expansions(modules, entries, stores, first + second) ==
            var (middle, known) := Expansions(modules, entries, stores, first).value;
            Expansions(modules, middle, known, second)
    decreases |second|
  {
    hide Expansion;
    if second == [] {
      assert first + second == first;
      var (middle, known) := Expansions(modules, entries, stores, first).value;
      assert Expansions(modules, middle, known, second) == Some((middle, known));
    } else {
      var last := |second| - 1;
      var both := first + second;
      assert both[..|both| - 1] == first + second[..last] && both[|both| - 1] == second[last];
      ExpansionsConcat(modules, entries, stores, first, second[..last]);
    }
  }

  lemma ReachesTransitive(modules: Opener, entries: Entries, stores: seq<Store>, middle: Entries, known: seq<Store>,
                          after: Entries, grown: seq<Store>)
    requires Reaches(modules, entries, stores, middle, known) && Reaches(modules, middle, known, after, grown)
    ensures Reaches(modules, entries, stores, after, grown)
  {
    hide Expansions;
    var first :| Expansions(modules, entries, stores, first) == Some((middle, known));
    var second :| Expansions(modules, middle, known, second) == Some((after, grown));
    ExpansionsConcat(modules, entries, stores, first, second);
    assert Expansions(modules, entries, stores, first + second) == Some((after, grown));
  }

  /** In a context this one reaches, the module at `at` is needed to go on and cannot be expanded. */
  ghost predicate Stuck(modules: Opener, entries: Entries, stores: seq<Store>, at: Path, needed: Entries -> bool) {
    exists middle, known :: StuckAt(modules, entries, stores, at, needed, middle, known)
  }

  ghost predicate StuckAt(modules: Opener, entries: Entries, stores: seq<Store>, at: Path, needed: Entries -> bool,
                          middle: Entries, known: seq<Store>)
  {
    && Reaches(modules, entries, stores, middle, known)
    && IsModule(middle, at) && Expansion(modules, middle, known, at) == None
    && needed(middle)
  }

  /** Being stuck after some expansions is being stuck. */
  lemma StuckFurther(modules: Opener, entries: Entries, stores: seq<Store>, middle: Entries, known: seq<Store>,
                     at: Path, needed: Entries -> bool)
    requires Reaches(modules, entries, stores, middle, known) && Stuck(modules, middle, known, at, needed)
    ensures Stuck(modules, entries, stores, at, needed)
  {
    hide Reaches, Expansion;
    var last, stuck :| StuckAt(modules, middle, known, at, needed, last, stuck);
    ReachesTransitive(modules, entries, stores, middle, known, last, stuck);
    assert StuckAt(modules, entries, stores, at, needed, last, stuck);
  }

  lemma CannotExpand(modules: Opener, entries: Entries, stores: seq<Store>, selected: Path)
    requires forall after, grown :: !Expanded(entries, stores, modules, selected, after, grown)
    ensures Expansion(modules, entries, stores, selected) == None
  {
    hide Expanded, Expansion;
    if result :| Expansion(modules, entries, stores, selected) == Some(result) {
      ExpansionExactly(modules, entries, stores, selected, result.0, result.1);
    }
  }

  // ---- Termination of on-demand expansion ----

  /** How many modules of stores at `depth` are still unexpanded. */
  ghost function Census(entries: Entries, stores: seq<Store>, depth: nat): nat
    requires StoresKnown(entries, stores)
  {
    |Unexpanded(entries, stores, depth)|
  }

  ghost function Unexpanded(entries: Entries, stores: seq<Store>, depth: nat): set<Path>
    requires StoresKnown(entries, stores)
  {
    set q | q in entries && entries[q].Module? && stores[entries[q].store].depth == depth
  }

  /**
    An expansion removes one module at its store's depth and adds modules only
    one level deeper, so the vector of counts per depth decreases.
    */
  lemma ExpandedCensus(before: Entries, stores: seq<Store>, modules: Opener, selected: Path,
                       after: Entries, grown: seq<Store>)
    requires Consistent(before, stores) && Expanded(before, stores, modules, selected, after, grown)
    ensures StoresKnown(after, grown)
    ensures var depth := stores[before[selected].store].depth;
      && depth < MAX_DEPTH
      && Census(after, grown, depth) == Census(before, stores, depth) - 1
      && forall d: nat | d < depth :: Census(after, grown, d) == Census(before, stores, d)
  {
    ExpandedConsistent(before, stores, modules, selected, after, grown);
    var depth := stores[before[selected].store].depth;
    forall d: nat, q | d <= depth
      ensures q in Unexpanded(after, grown, d) <==> q in Unexpanded(before, stores, d) && q != selected
    {
      ExpandedModule(before, stores, modules, selected, after, grown, q);
    }
    assert Unexpanded(after, grown, depth) == Unexpanded(before, stores, depth) - {selected};
    forall d: nat | d < depth
      ensures Unexpanded(after, grown, d) == Unexpanded(before, stores, d)
    {
    }
  }

  /** A module of the expanded context was there before, or is one level deeper. */
  lemma ExpandedModule(before: Entries, stores: seq<Store>, modules: Opener, selected: Path,
                       after: Entries, grown: seq<Store>, q: Path)
    requires Consistent(before, stores) && Expanded(before, stores, modules, selected, after, grown)
    requires StoresKnown(after, grown)
    ensures IsModule(after, q) ==>
              || grown[after[q].store].depth == stores[before[selected].store].depth + 1
              || (q in before && before[q] == after[q] && q != selected)
    ensures IsModule(before, q) && q != selected ==> q in after && after[q] == before[q]
    ensures forall store: nat | store < |stores| :: grown[store] == stores[store]
  {
    ExpandedFrame(before, stores, modules, selected, after, grown);
    var job := Job(selected, [], grown[|stores|].root.children);
    ListedStores(job, |stores|);
    if IsModule(after, q) && q !in before {
      assert q in Listed(job, |stores|);
    }
  }

  // ---- The context and its operations ----

  class CapturedContext {
    const modules: Opener
    var stores: seq<Store>
    var entries: Entries

    constructor (modules: Opener, stores: seq<Store>)
      ensures this.modules == modules && this.stores == stores && entries == map[]
    {
      this.modules := modules;
      this.stores := stores;
      entries := map[];
    }

    ghost predicate Valid()
      reads this
    {
      Consistent(entries, stores)
    }

    /** Open a module of a store, within the depth cap. */
    method OpenModule(parent: nat, place: Path, oid: Oid) returns (index: Option<nat>)
      requires parent < |stores|
      modifies this`stores
      ensures index.Some? <==> Opened(modules, old(stores)[parent], place, oid).Some?
      ensures stores == old(stores) +
                        (if index.Some? then [Opened(modules, old(stores)[parent], place, oid).value] else [])
      ensures index.Some? ==> index.value == |old(stores)|
    {
      var depth := stores[parent].depth + 1;
      if depth > MAX_DEPTH {
        return None;
      }
      var found := modules(stores[parent].repository, stores[parent].root, place, oid);
      if found == None {
        return None;
      }
      index := Some(|stores|);
      stores := stores + [Store(found.value.0, found.value.1, depth)];
    }

    /** Insert every entry of a tree below `prefix`. */
    method Scan(store: nat, prefix: Path, place: Path, tree: Tree) returns (ok: bool)
      modifies this`entries
      ensures
        var listed := Listed(Job(prefix, place, tree.children), store);
        && (ok <==> Sound(tree.children) && old(entries).Keys !! listed.Keys)
        && (ok ==> entries == old(entries) + listed)
    {
      ghost var before := entries;
      var root := Job(prefix, place, tree.children);
      ghost var goal := Listed(root, store);
      var pending := [root];
      ScanStart(before, goal);
      RestPush([], root, store);
      assert [] + [root] == [root] && map[] + goal == goal;
      while pending != []
        invariant Disjoint(pending, store) && Scanning(before, entries, Rest(pending, store), goal)
        invariant Sound(tree.children) <==> AllSound(pending)
        decreases Work(pending)
      {
        var job := pending[|pending| - 1];
        pending := pending[..|pending| - 1];
        assert old(entries) == before;
        if !Level(job.children) {
          return false;
        }
        ok, pending := ScanLevel(store, job, pending, before, goal);
        if !ok {
          return false;
        }
      }
      ScanEnd(before, entries, goal);
      return true;
    }

    /** Insert the children of one level and stack its directories. */
    method ScanLevel(store: nat, job: Job, stack: seq<Job>, ghost before: Entries, ghost goal: Entries)
      returns (ok: bool, pending: seq<Job>)
      requires Level(job.children) && Disjoint(stack + [job], store)
      requires Scanning(before, entries, Rest(stack + [job], store), goal)
      modifies this`entries
      ensures !ok ==> !AllSound(stack + [job]) || !(before.Keys !! goal.Keys)
      ensures ok ==> Disjoint(pending, store) && Scanning(before, entries, Rest(pending, store), goal)
      ensures ok ==> (AllSound(stack + [job]) <==> AllSound(pending))
      ensures ok ==> Work(pending) < Work(stack + [job])
    {
      hide Scanning, Disjoint, Rest, Work, AllSound, Listed;
      pending := stack;
      ghost var left := job;
      for i := 0 to |job.children|
        invariant left == job.(children := job.children[i..]) && Level(left.children)
        invariant Disjoint(pending + [left], store)
        invariant Scanning(before, entries, Rest(pending + [left], store), goal)
        invariant AllSound(stack + [job]) <==> AllSound(pending + [left])
        invariant Work(pending + [left]) <= Work(stack + [job])
      {
        var child := job.children[i];
        var path, entry := job.prefix + [child.name], EntryOf(child.node, store, job.place + [child.name]);
        ghost var rest := Rest(pending + [left], store);
        assert left.children[0] == child && left.children[1..] == job.children[i + 1..];
        ghost var pushed := ChildStep(pending, left, store);
        SoundStep(pending, left);
        WorkStep(pending, left);
        left := left.(children := left.children[1..]);
        if child.node.Link? && !ValidTarget(child.node.target) {
          return false, pending;
        }
        if child.node.Dir? {
          pending := pending + [Enter(job, child)];
        }
        if path in entries {
          ScanClash(before, entries, rest, goal, path);
          return false, pending;
        }
        ScanInsert(before, entries, rest, goal, path, entry, Rest(pushed + [left], store));
        entries := entries[path := entry];
      }
      SoundEmpty(pending, left);
      RestEmpty(pending, left, store);
      WorkPush(pending, left);
      ok := true;
    }

    /**
      Resolve a file name, expanding modules on the way. The result is what
      resolution gives in the context as it is afterwards, and it fails only at a
      module that resolution needs and that cannot be expanded.
      */
    method Read(path: seq<Byte>) returns (outcome: ReadOutcome)
      requires Valid()
      modifies this
      ensures !outcome.ModuleFailed? ==>
                && Valid() && Extends(old(entries), entries)
                && Reaches(modules, old(entries), old(stores), entries, stores)
      ensures
        var file := FileAt(entries, Walk(entries, [], LinkParts(path), 0));
        match outcome
        case Loaded(store, oid) => file.Some? && file.value.store == store && file.value.oid == oid
        case Rejected => file == None
        case ModuleFailed(at) =>
          Stuck(modules, old(entries), old(stores), at, (e: Entries) => Walk(e, [], LinkParts(path), 0) == NeedsModule(at))
      ensures (forall q <- old(entries) :: !old(entries)[q].Module?) ==>
                !outcome.ModuleFailed? && entries == old(entries) && stores == old(stores)
    {
      hide Walk, Components, DemandsDirectory, Consistent, Passes, Extends, Reaches, Expanded;
      ghost var parts := LinkParts(path);
      ghost var settled := forall q <- entries :: !entries[q].Module?;
      var pending, resolved, followed := Components(path), [], 0;
      if DemandsDirectory(path) {
        pending := pending + [DOT];
      } else {
        assert pending + [] == pending;
      }
      PassesStart(entries, parts);
      ReachesItself(modules, entries, stores);
      while pending != []
        invariant followed <= MAX_LINKS && Valid() && Extends(old(entries), entries)
        invariant Reaches(modules, old(entries), old(stores), entries, stores)
        invariant Passes(entries, parts, resolved, pending, followed)
        invariant settled ==> entries == old(entries) && stores == old(stores)
        decreases MAX_LINKS - followed, |pending|
      {
        ghost var before, known := entries, stores;
        if pending[0] != DOT && pending[0] != PARENT {
          var selected := resolved + [pending[0]];
          var ok := Expand(selected);
          if !ok {
            ReadStuck(modules, old(entries), old(stores), before, known, parts, resolved, pending, followed);
            return ModuleFailed(selected);
          }
          ExtendsTransitive(old(entries), before, entries);
          PassesNarrow(before, entries, parts, resolved, pending, followed);
          if IsModule(before, selected) {
            ReachesNext(modules, old(entries), old(stores), before, known, selected, entries, stores);
          }
        }
        var next := Turn(entries, parts, resolved, pending, followed);
        if next == None {
          return Rejected;
        }
        resolved, pending, followed := next.value.resolved, next.value.pending, next.value.followed;
      }
      PassesOver(entries, parts, resolved, followed);
      if resolved in entries && entries[resolved].File? {
        return Loaded(entries[resolved].store, entries[resolved].oid);
      }
      return Rejected;
    }

    /** Replace a selected module by its tree; anything else is left alone. */
    method Expand(selected: Path) returns (ok: bool)
      requires Valid()
      modifies this
      ensures !IsModule(old(entries), selected) ==> ok && entries == old(entries) && stores == old(stores)
      ensures ok ==> Valid() && Extends(old(entries), entries) && !IsModule(entries, selected)
      ensures IsModule(old(entries), selected) && ok ==>
                Expanded(old(entries), old(stores), modules, selected, entries, stores)
      ensures IsModule(old(entries), selected) && !ok ==>
                forall after, grown :: !Expanded(old(entries), old(stores), modules, selected, after, grown)
    {
      if selected !in entries || !entries[selected].Module? {
        return true;
      }
      var module_ := entries[selected];
      var store := OpenModule(module_.store, module_.path, module_.oid);
      if store == None {
        return false;
      }
      var root := stores[store.value].root;
      ghost var job := Job(selected, [], root.children);
      assert old(entries).Keys !! Listed(job, store.value).Keys by {
        forall q | q in Listed(job, store.value)
          ensures q !in old(entries)
        {
          NothingBelowLeaf(old(entries), selected, q);
        }
      }
      ok := Scan(store.value, selected, [], root);
      if ok {
        entries := entries[selected := Directory];
        ExpandedConsistent(old(entries), old(stores), modules, selected, entries, stores);
        ExpandedFrame(old(entries), old(stores), modules, selected, entries, stores);
      }
    }
  }

  // ---- Reading with expansion on the way ----

  datatype ReadOutcome =
    | Loaded(store: nat, oid: Oid)
    | Rejected
    | ModuleFailed(at: Path)

  /** `large` has every entry of `small` that is not an unexpanded module. */
  ghost predicate Extends(small: Entries, large: Entries) {
    forall q <- small :: !small[q].Module? ==> q in large && large[q] == small[q]
  }

  /** In every context this one may still expand to, the walk of `parts` passes here. */
  ghost predicate Passes(entries: Entries, parts: Path, resolved: Path, pending: Path, links: nat)
    requires links <= MAX_LINKS
  {
    forall large | Extends(entries, large) :: Walk(large, resolved, pending, links) == Walk(large, [], parts, 0)
  }

  /** The file a walk ends at, if it does. */
  function FileAt(entries: Entries, outcome: Outcome): Option<Entry> {
    if outcome.Found? && outcome.path in entries && entries[outcome.path].File?
    then Some(entries[outcome.path]) else None
  }

  lemma ExtendsTransitive(small: Entries, middle: Entries, large: Entries)
    requires Extends(small, middle) && Extends(middle, large)
    ensures Extends(small, large)
  {
  }

  lemma PassesNarrow(small: Entries, large: Entries, parts: Path, resolved: Path, pending: Path, links: nat)
    requires links <= MAX_LINKS && Extends(small, large) && Passes(small, parts, resolved, pending, links)
    ensures Passes(large, parts, resolved, pending, links)
  {
    hide Extends, Walk;
    forall more | Extends(large, more)
      ensures Walk(more, resolved, pending, links) == Walk(more, [], parts, 0)
    {
      ExtendsTransitive(small, large, more);
    }
  }

  lemma PassesStart(entries: Entries, parts: Path)
    ensures Passes(entries, parts, [], parts, 0) && Extends(entries, entries)
  {
    hide Walk;
  }

  lemma PassesOver(entries: Entries, parts: Path, resolved: Path, links: nat)
    requires links <= MAX_LINKS && Passes(entries, parts, resolved, [], links)
    ensures Walk(entries, [], parts, 0) == Found(resolved)
  {
    hide Walk;
    assert Extends(entries, entries);
    WalkNothing(entries, resolved, links);
  }

  /** A module that stops the walk here stops it from the start. */
  lemma ReadStuck(modules: Opener, entries: Entries, stores: seq<Store>, middle: Entries, known: seq<Store>,
                  parts: Path, resolved: Path, pending: Path, links: nat)
    requires links <= MAX_LINKS && pending != [] && pending[0] != DOT && pending[0] != PARENT
    requires Reaches(modules, entries, stores, middle, known) && Passes(middle, parts, resolved, pending, links)
    requires IsModule(middle, resolved + [pending[0]])
    requires forall after, grown :: !Expanded(middle, known, modules, resolved + [pending[0]], after, grown)
    ensures var at := resolved + [pending[0]];
      Stuck(modules, entries, stores, at, (e: Entries) => Walk(e, [], parts, 0) == NeedsModule(at))
  {
    hide Reaches, Expanded, Expansion;
    var at := resolved + [pending[0]];
    CannotExpand(modules, middle, known, at);
    assert Extends(middle, middle);
    assert Walk(middle, resolved, pending, links) == NeedsModule(at);
    hide Walk, Passes;
    assert StuckAt(modules, entries, stores, at, (e: Entries) => Walk(e, [], parts, 0) == NeedsModule(at), middle, known);
  }

  /** Where a resolution under way stands. */
  datatype Position = Position(resolved: Path, pending: Path, followed: nat)

  /** One component, in entries where it is no module; nothing where resolution cannot go on. */
  method Turn(entries: Entries, ghost parts: Path, resolved: Path, pending: Path, followed: nat)
    returns (next: Option<Position>)
    requires followed <= MAX_LINKS && pending != [] && Passes(entries, parts, resolved, pending, followed)
    requires pending[0] != DOT && pending[0] != PARENT ==> !IsModule(entries, resolved + [pending[0]])
    ensures next.Some? ==>
              var (r, p, f) := (next.value.resolved, next.value.pending, next.value.followed);
              && f <= MAX_LINKS && Passes(entries, parts, r, p, f)
              && (f > followed || (f == followed && |p| < |pending|))
    ensures next == None ==> !Walk(entries, [], parts, 0).Found?
  {
    hide Walk, Passes, Components, DemandsDirectory;
    var part, after := pending[0], pending[1..];
    PassesTurn(entries, parts, resolved, pending, followed);
    if part == DOT {
      return Some(Position(resolved, after, followed));
    }
    if part == PARENT {
      if resolved == [] {
        return None;
      }
      return Some(Position(resolved[..|resolved| - 1], after, followed));
    }
    var path := resolved + [part];
    if path !in entries {
      return None;
    }
    match entries[path] {
      case Symlink(target) =>
        if followed + 1 > MAX_LINKS || Absolute(target) {
          return None;
        }
        var linked := Components(target);
        if DemandsDirectory(target) {
          linked := linked + [DOT];
        } else {
          assert linked + [] == linked;
        }
        return Some(Position(resolved, linked + after, followed + 1));
      case File(_, _, _) =>
        if after != [] {
          return None;
        }
        return Some(Position(path, after, followed));
      case Directory => return Some(Position(path, after, followed));
      case Module(_, _, _) => assert false;
    }
  }

  /** What one component makes of a resolution; nothing where it ends without a file. */
  function Turned(entries: Entries, resolved: Path, pending: Path, followed: nat): Option<Position>
    requires pending != []
  {
    var part, after, path := pending[0], pending[1..], resolved + [pending[0]];
    if part == DOT then Some(Position(resolved, after, followed))
    else if part == PARENT then
      if resolved == [] then None else Some(Position(resolved[..|resolved| - 1], after, followed))
    else if path !in entries then None
    else match entries[path]
      case Module(_, _, _) => None
      case Symlink(target) =>
        if followed + 1 > MAX_LINKS || Absolute(target) then None
        else Some(Position(resolved, LinkParts(target) + after, followed + 1))
      case File(_, _, _) => if after != [] then None else Some(Position(path, after, followed))
      case Directory => Some(Position(path, after, followed))
  }

  /** A step through entries that expansion cannot change is the same in every further context. */
  lemma PassesTurn(entries: Entries, parts: Path, resolved: Path, pending: Path, followed: nat)
    requires followed <= MAX_LINKS && pending != [] && Passes(entries, parts, resolved, pending, followed)
    requires pending[0] != DOT && pending[0] != PARENT ==> !IsModule(entries, resolved + [pending[0]])
    ensures
      match Turned(entries, resolved, pending, followed)
      case Some(next) => next.followed <= MAX_LINKS && Passes(entries, parts, next.resolved, next.pending, next.followed)
      case None => !Walk(entries, [], parts, 0).Found?
  {
    hide Components, DemandsDirectory;
    match Turned(entries, resolved, pending, followed)
    case Some(next) =>
      forall large | Extends(entries, large)
        ensures Walk(large, next.resolved, next.pending, next.followed) == Walk(large, [], parts, 0)
      {
        assert Walk(large, resolved, pending, followed) == Walk(large, [], parts, 0);
      }
    case None =>
      assert Extends(entries, entries);
      assert Walk(entries, resolved, pending, followed) == Walk(entries, [], parts, 0);
  }

  predicate IsModule(entries: Entries, path: Path) {
    path in entries && entries[path].Module?
  }
}
