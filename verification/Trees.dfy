/**
  Committed Git trees as finite inductive values, the entries a scan of one
  should produce, and looking a path up in one.
  */
module Trees {
  import opened Wrappers
  import opened Bytes
  import opened Paths
  import opened Resolver

  datatype Tree = Tree(children: seq<Child>)
  datatype Child = Child(name: Name, node: Node)
  datatype Node =
    | Dir(tree: Tree)
    | Commit(oid: Oid)
    | Link(target: seq<Byte>)
    | Blob(executable: bool, oid: Oid)

  function Lower(b: Byte): Byte {
    if 0x41 <= b <= 0x5A then b + 0x20 else b
  }

  /** ".git" in any case. */
  predicate GitName(name: Name) {
    |name| == 4 && name[0] == 0x2E && Lower(name[1]) == 0x67 && Lower(name[2]) == 0x69 && Lower(name[3]) == 0x74
  }

  predicate ValidName(name: Name) {
    name != [] && name != DOT && name != PARENT && !GitName(name) && SEPARATOR !in name && 0 !in name
  }

  predicate DistinctNames(children: seq<Child>) {
    forall i, j | 0 <= i < j < |children| :: children[i].name != children[j].name
  }

  /** A tree object that may be read: valid, distinct names. */
  predicate Level(children: seq<Child>) {
    DistinctNames(children) && forall child <- children :: ValidName(child.name)
  }

  predicate ValidTarget(target: seq<Byte>) {
    target != [] && 0 !in target
  }

  predicate SoundNode(node: Node) {
    match node
    case Dir(tree) => Sound(tree.children)
    case Link(target) => ValidTarget(target)
    case _ => true
  }

  /** Every level, and every link target, of a subtree may be read. */
  predicate Sound(children: seq<Child>) {
    Level(children) && forall i | 0 <= i < |children| :: SoundNode(children[i].node)
  }

  function EntryOf(node: Node, store: nat, path: Path): Entry {
    match node
    case Dir(_) => Directory
    case Commit(oid) => Module(store, path, oid)
    case Link(target) => Symlink(target)
    case Blob(executable, oid) => File(store, executable, oid)
  }

  /** Where a scan stands: a path, the same place within its repository, and children to list. */
  datatype Job = Job(prefix: Path, place: Path, children: seq<Child>)

  function Enter(job: Job, child: Child): Job
    requires child.node.Dir?
  {
    Job(job.prefix + [child.name], job.place + [child.name], child.node.tree.children)
  }

  /** All entries of a job, recursively. */
  ghost function Listed(job: Job, store: nat): (entries: Entries)
    ensures forall q <- entries :: job.prefix < q
    decreases job.children
  {
    if job.children == [] then map[]
    else ListedChild(job, job.children[0], store) + Listed(job.(children := job.children[1..]), store)
  }

  ghost function ListedChild(job: Job, child: Child, store: nat): (entries: Entries)
    requires child in job.children
    ensures forall q <- entries :: job.prefix + [child.name] <= q
    decreases job.children, 0, child
  {
    (if child.node.Dir? then Listed(Enter(job, child), store) else map[])
    [job.prefix + [child.name] := EntryOf(child.node, store, job.place + [child.name])]
  }

  // ---- Lookup ----

  function Find(children: seq<Child>, name: Name): (node: Option<Node>)
    ensures node.Some? ==> exists i :: 0 <= i < |children| && children[i] == Child(name, node.value)
    ensures node.None? ==> forall child <- children :: child.name != name
  {
    if children == [] then None
    else if children[0].name == name then Some(children[0].node)
    else Find(children[1..], name)
  }

  /** The node at a nonempty relative path. */
  function At(children: seq<Child>, path: Path): Option<Node>
    requires path != []
    decreases |path|
  {
    var node :- Find(children, path[0]);
    if |path| == 1 then Some(node)
    else if node.Dir? then At(node.tree.children, path[1..])
    else None
  }

  /** A listed path goes on with the name of a child. */
  lemma {:induction false} ListedName(job: Job, store: nat, q: Path) returns (i: nat)
    requires q in Listed(job, store)
    ensures i < |job.children| && q[|job.prefix|] == job.children[i].name
    decreases |job.children|
  {
    var rest := job.(children := job.children[1..]);
    if q in Listed(rest, store) {
      i := ListedName(rest, store, q);
      i := i + 1;
    } else {
      i := 0;
      var path := job.prefix + [job.children[0].name];
      assert q in ListedChild(job, job.children[0], store) && path <= q;
      assert q[|job.prefix|] == path[|job.prefix|];
    }
  }

  lemma RestDiffers(job: Job, store: nat)
    requires job.children != [] && DistinctNames(job.children)
    ensures forall q <- Listed(job.(children := job.children[1..]), store) ::
              q[|job.prefix|] != job.children[0].name
  {
    hide Listed;
    var rest := job.(children := job.children[1..]);
    forall q | q in Listed(rest, store)
      ensures q[|job.prefix|] != job.children[0].name
    {
      var i := ListedName(rest, store, q);
      assert rest.children[i] == job.children[i + 1];
    }
  }

  /** Distinct siblings list disjoint subtrees. */
  lemma SiblingsDisjoint(job: Job, store: nat)
    requires job.children != [] && DistinctNames(job.children)
    ensures ListedChild(job, job.children[0], store).Keys !! Listed(job.(children := job.children[1..]), store).Keys
  {
    var first := job.children[0];
    RestDiffers(job, store);
    forall q | q in ListedChild(job, first, store)
      ensures q[|job.prefix|] == first.name
    {
      assert (job.prefix + [first.name])[|job.prefix|] == first.name;
    }
  }

  /** The listing of a sound tree holds exactly the paths that look up in it. */
  lemma {:induction false} ListedIsLookup(job: Job, store: nat, q: Path)
    requires Sound(job.children) && job.prefix < q
    ensures q in Listed(job, store) <==> At(job.children, q[|job.prefix|..]).Some?
    ensures q in Listed(job, store) ==>
              Listed(job, store)[q] ==
              EntryOf(At(job.children, q[|job.prefix|..]).value, store, job.place + q[|job.prefix|..])
    decreases |q| - |job.prefix|, |job.children|
  {
    if job.children != [] {
      var child, rest := job.children[0], job.(children := job.children[1..]);
      var path, relative := job.prefix + [child.name], q[|job.prefix|..];
      SoundRest(job.children);
      ListedSplit(job, store, q);
      hide Listed, Sound;
      if relative[0] == child.name {
        if q == path {
          assert relative == [child.name];
        } else if child.node.Dir? {
          ListedIsLookup(Enter(job, child), store, q);
          assert q[|path|..] == relative[1..];
          assert job.place + [child.name] + q[|path|..] == job.place + relative;
        }
      } else {
        ListedIsLookup(rest, store, q);
      }
    }
  }

  /** A path is listed with the child its next name says, and with no other. */
  lemma ListedSplit(job: Job, store: nat, q: Path)
    requires job.children != [] && DistinctNames(job.children) && job.prefix < q
    ensures
      var child, rest := job.children[0], job.(children := job.children[1..]);
      var path, whole := job.prefix + [child.name], Listed(job, store);
      if q[|job.prefix|] != child.name then
        (q in whole <==> q in Listed(rest, store)) && (q in whole ==> whole[q] == Listed(rest, store)[q])
      else if q == path then
        q in whole && whole[q] == EntryOf(child.node, store, job.place + [child.name])
      else
        var inner := if child.node.Dir? then Listed(Enter(job, child), store) else map[];
        path < q && (q in whole <==> q in inner) && (q in whole ==> whole[q] == inner[q])
  {
    var child, rest := job.children[0], job.(children := job.children[1..]);
    var path := job.prefix + [child.name];
    RestDiffers(job, store);
    assert path[|job.prefix|] == child.name;
    assert q[|job.prefix|] == child.name ==> path <= q;
    assert Listed(job, store) == ListedChild(job, child, store) + Listed(rest, store);
    hide Listed;
    assert q in ListedChild(job, child, store) ==> path <= q;
  }

  lemma SoundRest(children: seq<Child>)
    requires children != [] && Sound(children)
    ensures Sound(children[1..]) && SoundNode(children[0].node)
  {
  }
}
