/**
  Selecting the context directory inside the committed tree, before anything
  is listed, and its agreement with listing first and resolving afterwards.
  */
module Capture {
  import opened Wrappers
  import opened Bytes
  import opened Strings
  import opened Paths
  import opened Resolver
  import opened Trees
  import opened Scan
  import opened Context

  /** A directory on the way: its store, its tree and its place in that store's repository. */
  datatype Frame = Frame(store: nat, tree: Tree, place: Path)

  function Child(frame: Frame, name: Name, tree: Tree): Frame {
    Frame(frame.store, tree, frame.place + [name])
  }

  /** The stores of all frames are open. */
  predicate Open(stores: seq<Store>, frames: seq<Frame>) {
    forall frame <- frames :: frame.store < |stores|
  }

  /** Where walking `pending` from the innermost of `frames` ends, and the stores it opened. */
  function Descend(modules: Opener, stores: seq<Store>, frames: seq<Frame>, pending: Path, links: nat):
    (r: Option<(seq<Store>, seq<Frame>)>)
    requires links <= MAX_LINKS && frames != [] && Open(stores, frames)
    ensures r.Some? ==> r.value.1 != []
    decreases MAX_LINKS - links, |pending|
  {
    if pending == [] then Some((stores, frames))
    else
      var part, rest, current := pending[0], pending[1..], frames[|frames| - 1];
      if part == DOT then Descend(modules, stores, frames, rest, links)
      else if part == PARENT then
        if |frames| == 1 then None else Descend(modules, stores, frames[..|frames| - 1], rest, links)
      else if !Level(current.tree.children) then None
      else
        var node :- Find(current.tree.children, part);
        match node
        case Dir(tree) => Descend(modules, stores, frames + [Child(current, part, tree)], rest, links)
        case Commit(oid) =>
          var store :- Opened(modules, stores[current.store], current.place + [part], oid);
          Descend(modules, stores + [store], frames + [Frame(|stores|, store.root, [])], rest, links)
        case Link(target) =>
          if links + 1 > MAX_LINKS || !ValidTarget(target) || Absolute(target) then None
          else Descend(modules, stores, frames, Components(target) + rest, links + 1)
        case Blob(_, _) => None
  }

  /** Walk to the directory `context`, opening the modules on the way. */
  method Locate(captured: CapturedContext, root: Tree, context: seq<Byte>) returns (found: Option<Frame>)
    requires captured.stores != []
    modifies captured`stores
    ensures
      var walked := Descend(captured.modules, old(captured.stores), [Frame(0, root, [])], Components(context), 0);
      && (found.Some? <==> walked.Some?)
      && (found.Some? ==>
            && captured.stores == walked.value.0 && found.value.store < |captured.stores|
            && found.value == walked.value.1[|walked.value.1| - 1])
  {
    hide Descend, Components, Find, Level, Open;
    var frame := Frame(0, root, []);
    OpenFirst(captured.stores, frame);
    var parents: seq<Frame> := [];
    var pending, followed := Components(context), 0;
    ghost var goal := Descend(captured.modules, captured.stores, [frame], pending, 0);
    assert [] + [frame] == [frame];
    while pending != []
      invariant followed <= MAX_LINKS
      invariant Open(captured.stores, parents + [frame])
      invariant goal == Descend(captured.modules, captured.stores, parents + [frame], pending, followed)
      decreases MAX_LINKS - followed, |pending|
    {
      ghost var frames := parents + [frame];
      DescendStep(captured.modules, captured.stores, parents, frame, pending, followed);
      OpenNext(captured.stores, parents, frame);
      var name := pending[0];
      pending := pending[1..];
      if name == DOT {
        continue;
      }
      if name == PARENT {
        if parents == [] {
          return None;
        }
        frame := parents[|parents| - 1];
        parents := parents[..|parents| - 1];
        assert parents + [frame] == frames[..|frames| - 1];
        continue;
      }
      if !Level(frame.tree.children) {
        return None;
      }
      var node := Find(frame.tree.children, name);
      match node {
        case None => return None;
        case Some(Dir(tree)) =>
          parents := parents + [frame];
          frame := Child(frame, name, tree);
        case Some(Commit(oid)) =>
          var index := captured.OpenModule(frame.store, frame.place + [name], oid);
          if index == None {
            return None;
          }
          parents := parents + [frame];
          frame := Frame(index.value, captured.stores[index.value].root, []);
        case Some(Link(target)) =>
          followed := followed + 1;
          if followed > MAX_LINKS || !ValidTarget(target) || Absolute(target) {
            return None;
          }
          pending := Components(target) + pending;
        case Some(Blob(_, _)) => return None;
      }
    }
    DescendEnd(captured.modules, captured.stores, parents + [frame], followed);
    OpenNext(captured.stores, parents, frame);
    return Some(frame);
  }

  lemma OpenFirst(stores: seq<Store>, frame: Frame)
    requires frame.store < |stores|
    ensures Open(stores, [frame])
  {
  }

  /** Entering and leaving directories, and opening one more store, keeps all frames open. */
  lemma OpenNext(stores: seq<Store>, parents: seq<Frame>, frame: Frame)
    requires Open(stores, parents + [frame])
    ensures frame.store < |stores| && Open(stores, parents)
    ensures forall name, tree :: Open(stores, parents + [frame] + [Child(frame, name, tree)])
    ensures forall store: Store ::
              Open(stores + [store], parents + [frame] + [Frame(|stores|, store.root, [])])
  {
    assert frame in parents + [frame] && forall known <- parents :: known in parents + [frame];
  }

  /** Capture the directory `context` of a commit whose root tree is `root`. */
  method CaptureDirectory(modules: Opener, repository: nat, root: Tree, context: seq<Byte>)
    returns (captured: Option<CapturedContext>)
    ensures
      var first := Store(repository, root, 0);
      var walked := Descend(modules, [first], [Frame(0, root, [])], Components(context), 0);
      && (captured.Some? <==> walked.Some? && Sound(walked.value.1[|walked.value.1| - 1].tree.children))
      && (captured.Some? ==>
            && fresh(captured.value) && captured.value.Valid() && captured.value.stores == walked.value.0
            && var last := walked.value.1[|walked.value.1| - 1];
               captured.value.entries == Listed(Job([], last.place, last.tree.children), last.store))
  {
    hide Descend, Listed, Sound, Components, Consistent;
    var context_ := new CapturedContext(modules, [Store(repository, root, 0)]);
    var found := Locate(context_, root, context);
    if found == None {
      return None;
    }
    var frame := found.value;
    NothingAdded(Listed(Job([], frame.place, frame.tree.children), frame.store));
    var ok := context_.Scan(frame.store, [], frame.place, frame.tree);
    if !ok {
      return None;
    }
    DescendBounds(modules, [Store(repository, root, 0)], [Frame(0, root, [])], Components(context), 0);
    CapturedConsistent(Job([], frame.place, frame.tree.children), frame.store, context_.stores);
    return Some(context_);
  }

  lemma NothingAdded(entries: Entries)
    ensures map[] + entries == entries
  {
  }

  ghost predicate Bounded(stores: seq<Store>, frames: seq<Frame>) {
    && (forall store <- stores :: store.depth <= MAX_DEPTH)
    && forall frame <- frames :: frame.store < |stores|
  }

  /** A descent keeps within the depth cap and in stores that are open. */
  lemma {:induction false} DescendBounds(modules: Opener, stores: seq<Store>, frames: seq<Frame>, pending: Path, links: nat)
    requires links <= MAX_LINKS && frames != [] && Bounded(stores, frames)
    requires Descend(modules, stores, frames, pending, links).Some?
    ensures var walked := Descend(modules, stores, frames, pending, links).value; Bounded(walked.0, walked.1)
    decreases MAX_LINKS - links, |pending|
  {
    if pending != [] {
      var part, rest, current := pending[0], pending[1..], frames[|frames| - 1];
      if part == DOT {
        DescendBounds(modules, stores, frames, rest, links);
      } else if part == PARENT {
        DescendBounds(modules, stores, frames[..|frames| - 1], rest, links);
      } else {
        match Find(current.tree.children, part).value
        case Dir(tree) =>
          DescendBounds(modules, stores, frames + [Child(current, part, tree)], rest, links);
        case Commit(oid) =>
          var store := Opened(modules, stores[current.store], current.place + [part], oid).value;
          DescendBounds(modules, stores + [store], frames + [Frame(|stores|, store.root, [])], rest, links);
        case Link(target) =>
          DescendBounds(modules, stores, frames, Components(target) + rest, links + 1);
      }
    }
  }

  /** The listing of a sound directory is a consistent context. */
  lemma CapturedConsistent(job: Job, store: nat, stores: seq<Store>)
    requires Sound(job.children) && job.prefix == [] && store < |stores|
    requires forall known <- stores :: known.depth <= MAX_DEPTH
    ensures Consistent(Listed(job, store), stores)
  {
    hide Sound;
    ListedStores(job, store);
    forall q | q in Listed(job, store)
      ensures q != [] && IsDirectory(Listed(job, store), q[..|q| - 1])
    {
      ListedRooted(job, store, q);
    }
  }

  lemma DescendEnd(modules: Opener, stores: seq<Store>, frames: seq<Frame>, links: nat)
    requires links <= MAX_LINKS && frames != [] && Open(stores, frames)
    ensures Descend(modules, stores, frames, [], links) == Some((stores, frames))
  {
  }

  /** One component of the descent. */
  lemma DescendStep(modules: Opener, stores: seq<Store>, parents: seq<Frame>, frame: Frame, pending: Path, links: nat)
    requires links <= MAX_LINKS && pending != [] && Open(stores, parents + [frame])
    ensures
      var frames, part, rest := parents + [frame], pending[0], pending[1..];
      Descend(modules, stores, frames, pending, links) ==
      if part == DOT then Descend(modules, stores, frames, rest, links)
      else if part == PARENT then if parents == [] then None else Descend(modules, stores, parents, rest, links)
      else if !Level(frame.tree.children) then None
      else match Find(frame.tree.children, part)
        case None => None
        case Some(Dir(tree)) => Descend(modules, stores, frames + [Child(frame, part, tree)], rest, links)
        case Some(Commit(oid)) =>
          (match Opened(modules, stores[frame.store], frame.place + [part], oid)
           case None => None
           case Some(store) =>
             Descend(modules, stores + [store], frames + [Frame(|stores|, store.root, [])], rest, links))
        case Some(Link(target)) =>
          if links + 1 > MAX_LINKS || !ValidTarget(target) || Absolute(target) then None
          else Descend(modules, stores, frames, Components(target) + rest, links + 1)
        case Some(Blob(_, _)) => None
  {
    hide Find, Level, Components;
    assert (parents + [frame])[..|parents|] == parents;
    assert forall known <- parents :: known in parents + [frame];
  }

  // ---- Capturing a directory commutes with capturing the root ----

  predicate ModuleFreeNode(node: Node) {
    match node case Dir(tree) => ModuleFree(tree.children) case Commit(_) => false case _ => true
  }

  predicate ModuleFree(children: seq<Trees.Child>) {
    forall i | 0 <= i < |children| :: ModuleFreeNode(children[i].node)
  }

  /** The tree of a directory of `root`. */
  function Subtree(root: Tree, path: Path): Option<Tree> {
    if path == [] then Some(root)
    else match At(root.children, path)
      case Some(Dir(tree)) => Some(tree)
      case _ => None
  }

  lemma {:induction false} AtAppend(children: seq<Trees.Child>, path: Path, name: Name)
    requires path != []
    ensures At(children, path + [name]) ==
            match At(children, path) case Some(Dir(tree)) => Find(tree.children, name) case _ => None
  {
    var whole := path + [name];
    assert whole[0] == path[0] && whole[1..] == path[1..] + [name];
    match Find(children, path[0])
    case Some(Dir(tree)) =>
      if |path| == 1 {
        assert whole[1..] == [name];
      } else {
        AtAppend(tree.children, path[1..], name);
      }
    case _ =>
  }

  lemma {:induction false} SubtreeSound(children: seq<Trees.Child>, path: Path)
    requires path != [] && Sound(children) && ModuleFree(children) && At(children, path).Some?
    ensures SoundNode(At(children, path).value) && ModuleFreeNode(At(children, path).value)
    decreases |path|
  {
    var node := Find(children, path[0]).value;
    var i :| 0 <= i < |children| && children[i] == Trees.Child(path[0], node);
    if |path| > 1 {
      SubtreeSound(node.tree.children, path[1..]);
    }
  }

  /** The frames of a module-free walk are the directories along its path. */
  ghost predicate Along(root: Tree, frames: seq<Frame>, path: Path) {
    && |frames| == |path| + 1
    && forall i | 0 <= i <= |path| :: Subtree(root, path[..i]).Some? &&
         frames[i] == Frame(0, Subtree(root, path[..i]).value, path[..i])
  }

  /** A walk that ends at a directory. */
  function DirectoryAt(entries: Entries, outcome: Outcome): Option<Path> {
    if outcome.Found? && IsDirectory(entries, outcome.path) then Some(outcome.path) else None
  }

  function NoDots(parts: Path): Path {
    if parts == [] then [] else NoDot(parts[0]) + NoDots(parts[1..])
  }

  function NoDot(part: Name): Path {
    if part == DOT then [] else [part]
  }

  lemma {:induction false} NoDotsConcat(a: Path, b: Path)
    ensures NoDots(a + b) == NoDots(a) + NoDots(b)
  {
    if a == [] {
      assert a + b == b;
    } else {
      NoDotsConcat(a[1..], b);
      assert (a + b)[0] == a[0] && (a + b)[1..] == a[1..] + b;
      hide NoDot;
      Assoc(NoDot(a[0]), NoDots(a[1..]), NoDots(b));
    }
  }

  ghost function RootListing(root: Tree): Entries {
    Listed(Job([], [], root.children), 0)
  }

  lemma EntryBelow(root: Tree, path: Path, name: Name)
    requires Sound(root.children) && Subtree(root, path).Some?
    ensures
      var node := Find(Subtree(root, path).value.children, name);
      && (path + [name] in RootListing(root) <==> node.Some?)
      && (node.Some? ==> RootListing(root)[path + [name]] == EntryOf(node.value, 0, path + [name]))
      && At(root.children, path + [name]) == node
  {
    hide Listed, Sound;
    var q := path + [name];
    ListedIsLookup(Job([], [], root.children), 0, q);
    assert q[0..] == q && [] + q == q;
    if path != [] {
      AtAppend(root.children, path, name);
    }
  }

  lemma DirectoryEntry(root: Tree, path: Path)
    requires Sound(root.children)
    ensures IsDirectory(RootListing(root), path) <==> Subtree(root, path).Some?
  {
    hide Listed, Sound;
    if path != [] {
      ListedIsLookup(Job([], [], root.children), 0, path);
      assert path[0..] == path;
    }
  }

  /**
    In a module-free tree, descending through tree objects and resolving in the
    root listing end at the same directory; trailing-slash markers do not matter.
    */
  lemma {:induction false} DescendIsWalk(modules: Opener, stores: seq<Store>, root: Tree, frames: seq<Frame>, path: Path,
                                         pending: Path, listed: Path, links: nat)
    requires links <= MAX_LINKS && |stores| > 0 && Sound(root.children) && ModuleFree(root.children)
    requires Along(root, frames, path) && NoDots(pending) == NoDots(listed)
    ensures
      var entries := RootListing(root);
      var found := DirectoryAt(entries, Walk(entries, path, listed, links));
      var walked := Descend(modules, stores, frames, pending, links);
      && (walked.Some? <==> found.Some?)
      && (walked.Some? ==> walked.value.0 == stores && Along(root, walked.value.1, found.value))
    decreases MAX_LINKS - links, |pending| + |listed|, 1
  {
    hide Listed, Sound, ModuleFree, Along;
    var entries := RootListing(root);
    if pending != [] && pending[0] == DOT {
      assert NoDots(pending[1..]) == NoDots(pending) by { assert [] + NoDots(pending[1..]) == NoDots(pending[1..]); }
      AlongCount(root, frames, path);
      DescendIsWalk(modules, stores, root, frames, path, pending[1..], listed, links);
    } else if listed != [] && listed[0] == DOT {
      DescendIsWalk(modules, stores, root, frames, path, pending, listed[1..], links);
    } else if pending == [] || listed == [] {
      assert pending == [] && listed == [];
      DirectoryEntry(root, path);
      AlongCount(root, frames, path);
    } else {
      PartIsWalk(modules, stores, root, frames, path, pending, listed, links);
    }
  }

  lemma {:induction false} PartIsWalk(modules: Opener, stores: seq<Store>, root: Tree, frames: seq<Frame>, path: Path,
                                      pending: Path, listed: Path, links: nat)
    requires links <= MAX_LINKS && |stores| > 0 && Sound(root.children) && ModuleFree(root.children)
    requires Along(root, frames, path) && NoDots(pending) == NoDots(listed)
    requires pending != [] && listed != [] && pending[0] != DOT && listed[0] != DOT
    ensures
      var entries := RootListing(root);
      var found := DirectoryAt(entries, Walk(entries, path, listed, links));
      var walked := Descend(modules, stores, frames, pending, links);
      && (walked.Some? <==> found.Some?)
      && (walked.Some? ==> walked.value.0 == stores && Along(root, walked.value.1, found.value))
    decreases MAX_LINKS - links, |pending| + |listed|, 0
  {
    hide Listed, Sound, ModuleFree, Along, RootListing, NoDots, Find, Components, LinkParts, Opened, Subtree;
    SamePart(pending, listed);
    var part, rest, more := pending[0], pending[1..], listed[1..];
    AlongCount(root, frames, path);
    if part == PARENT {
      if path != [] {
        AlongUp(root, frames, path);
        DescendIsWalk(modules, stores, root, frames[..|path|], path[..|path| - 1], rest, more, links);
      }
    } else {
      var tree := Subtree(root, path).value;
      TreeSound(root, path);
      EntryBelow(root, path, part);
      match Find(tree.children, part)
      case None =>
      case Some(Blob(_, _)) =>
      case Some(Commit(_)) =>
        NodeSound(tree.children, part);
      case Some(Dir(inner)) =>
        AlongDown(root, frames, path, part, inner);
        DescendIsWalk(modules, stores, root, frames + [Child(frames[|path|], part, inner)], path + [part], rest, more, links);
      case Some(Link(target)) =>
        NodeSound(tree.children, part);
        if links < MAX_LINKS && !Absolute(target) {
          LinkDots(target, rest, more);
          DescendIsWalk(modules, stores, root, frames, path, Components(target) + rest, LinkParts(target) + more, links + 1);
        }
    }
  }

  lemma SamePart(pending: Path, listed: Path)
    requires pending != [] && listed != [] && pending[0] != DOT && listed[0] != DOT
    requires NoDots(pending) == NoDots(listed)
    ensures pending[0] == listed[0] && NoDots(pending[1..]) == NoDots(listed[1..])
  {
    assert NoDots(pending)[0] == pending[0] && NoDots(listed)[0] == listed[0];
    assert NoDots(pending)[1..] == NoDots(pending[1..]) && NoDots(listed)[1..] == NoDots(listed[1..]);
  }

  lemma LinkDots(target: seq<Byte>, rest: Path, more: Path)
    requires NoDots(rest) == NoDots(more)
    ensures NoDots(Components(target) + rest) == NoDots(LinkParts(target) + more)
  {
    hide Components, LinkParts, NoDots;
    NoDotsConcat(Components(target), rest);
    NoDotsConcat(LinkParts(target), more);
    MarkerIgnored(target);
  }

  /** The marker of a demanded directory is a dot, so it does not matter. */
  lemma MarkerIgnored(target: seq<Byte>)
    ensures NoDots(LinkParts(target)) == NoDots(Components(target))
  {
    hide Components;
    if DemandsDirectory(target) {
      NoDotsConcat(Components(target), [DOT]);
      LoneDot();
      hide NoDots;
      assert NoDots(Components(target)) + [] == NoDots(Components(target));
    } else {
      assert Components(target) + [] == Components(target);
    }
  }

  lemma LoneDot()
    ensures NoDots([DOT]) == []
  {
    assert [DOT][1..] == [];
  }

  lemma AlongCount(root: Tree, frames: seq<Frame>, path: Path)
    requires Along(root, frames, path)
    ensures |frames| == |path| + 1 && Subtree(root, path).Some?
    ensures frames[|path|] == Frame(0, Subtree(root, path).value, path)
    ensures forall frame <- frames :: frame.store == 0
  {
    assert path[..|path|] == path;
    forall frame | frame in frames
      ensures frame.store == 0
    {
      var i :| 0 <= i < |frames| && frames[i] == frame;
    }
  }

  lemma AlongUp(root: Tree, frames: seq<Frame>, path: Path)
    requires Along(root, frames, path) && path != []
    ensures Along(root, frames[..|path|], path[..|path| - 1])
  {
    var up := path[..|path| - 1];
    assert forall i | 0 <= i <= |up| :: up[..i] == path[..i];
  }

  lemma AlongDown(root: Tree, frames: seq<Frame>, path: Path, name: Name, tree: Tree)
    requires Along(root, frames, path) && At(root.children, path + [name]) == Some(Dir(tree))
    ensures Along(root, frames + [Child(frames[|path|], name, tree)], path + [name])
  {
    var down := path + [name];
    var longer := frames + [Child(frames[|path|], name, tree)];
    AlongCount(root, frames, path);
    hide At, Subtree;
    forall i | 0 <= i <= |down|
      ensures Subtree(root, down[..i]).Some?
      ensures longer[i] == Frame(0, Subtree(root, down[..i]).value, down[..i])
    {
      if i <= |path| {
        assert down[..i] == path[..i] && longer[i] == frames[i];
      } else {
        assert down[..i] == down;
        SubtreeAt(root, down, tree);
      }
    }
  }

  lemma SubtreeAt(root: Tree, path: Path, tree: Tree)
    requires path != [] && At(root.children, path) == Some(Dir(tree))
    ensures Subtree(root, path) == Some(tree)
  {
  }

  lemma TreeSound(root: Tree, path: Path)
    requires Sound(root.children) && ModuleFree(root.children) && Subtree(root, path).Some?
    ensures var children := Subtree(root, path).value.children; Sound(children) && ModuleFree(children) && Level(children)
  {
    if path != [] {
      SubtreeSound(root.children, path);
    }
  }

  lemma NodeSound(children: seq<Trees.Child>, name: Name)
    requires Sound(children) && ModuleFree(children) && Find(children, name).Some?
    ensures SoundNode(Find(children, name).value) && ModuleFreeNode(Find(children, name).value)
  {
    SubtreeSound(children, [name]);
  }

  /**
    Capture commutes with selection: in a module-free commit that may be listed
    at all, a context directory can be captured exactly when its path resolves
    to a directory of the root listing, and then its entries are the root
    listing's entries below that path.
    */
  lemma CaptureCommutes(modules: Opener, repository: nat, root: Tree, context: seq<Byte>)
    requires Sound(root.children) && ModuleFree(root.children)
    ensures
      var entries := RootListing(root);
      var found := DirectoryAt(entries, Walk(entries, [], LinkParts(context), 0));
      var walked := Descend(modules, [Store(repository, root, 0)], [Frame(0, root, [])], Components(context), 0);
      && (walked.Some? <==> found.Some?)
      && (walked.Some? ==>
            var last := walked.value.1[|walked.value.1| - 1];
            && Sound(last.tree.children)
            && Below(Listed(Job([], last.place, last.tree.children), last.store), entries, found.value))
  {
    hide Listed, Sound, Components;
    var entries := RootListing(root);
    var stores := [Store(repository, root, 0)];
    LinkDots(context, [], []);
    assert Components(context) + [] == Components(context) && LinkParts(context) + [] == LinkParts(context);
    DescendIsWalk(modules, stores, root, [Frame(0, root, [])], [], Components(context), LinkParts(context), 0);
    var walked := Descend(modules, stores, [Frame(0, root, [])], Components(context), 0);
    if walked.Some? {
      var path := DirectoryAt(entries, Walk(entries, [], LinkParts(context), 0)).value;
      AlongCount(root, walked.value.1, path);
      TreeSound(root, path);
      SubtreeListing(root, path);
    }
  }

  /** `part` has exactly the entries of `whole` strictly below `path`, relative to it. */
  ghost predicate Below(part: Entries, whole: Entries, path: Path) {
    && (forall q :: q in part <==> q != [] && path + q in whole)
    && (forall q <- part :: part[q] == whole[path + q])
  }

  /** Listing a directory on its own is listing the root and keeping what is below it. */
  lemma SubtreeListing(root: Tree, path: Path)
    requires Sound(root.children) && Subtree(root, path).Some? && Sound(Subtree(root, path).value.children)
    ensures Below(Listed(Job([], path, Subtree(root, path).value.children), 0), RootListing(root), path)
  {
    hide Listed, Sound;
    var inner := Job([], path, Subtree(root, path).value.children);
    var outer := Job([], [], root.children);
    forall q: Path | q != []
      ensures q in Listed(inner, 0) <==> path + q in RootListing(root)
      ensures q in Listed(inner, 0) ==> Listed(inner, 0)[q] == RootListing(root)[path + q]
    {
      ListedIsLookup(inner, 0, q);
      ListedIsLookup(outer, 0, path + q);
      assert q[0..] == q && (path + q)[0..] == path + q && [] + (path + q) == path + q;
      AtConcat(root, path, q);
    }
  }

  lemma {:induction false} AtConcat(root: Tree, path: Path, q: Path)
    requires q != [] && Subtree(root, path).Some?
    ensures At(root.children, path + q) == At(Subtree(root, path).value.children, q)
    decreases |path|
  {
    if path == [] {
      assert path + q == q;
    } else {
      var inner := Find(root.children, path[0]).value.tree;
      assert (path + q)[1..] == path[1..] + q;
      AtConcat(inner, path[1..], q);
    }
  }
}
