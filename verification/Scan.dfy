/**
  The worklist scan of a tree inserts exactly the tree's listing, and fails
  only for an unsound tree or a path that is already there.
  */
module Scan {
  import opened Paths
  import opened Resolver
  import opened Trees

  /** Everything that a stack of jobs still lists. */
  ghost function Rest(jobs: seq<Job>, store: nat): Entries {
    if jobs == [] then map[]
    else Rest(jobs[..|jobs| - 1], store) + Listed(jobs[|jobs| - 1], store)
  }

  ghost predicate Disjoint(jobs: seq<Job>, store: nat) {
    jobs != [] ==>
      && Disjoint(jobs[..|jobs| - 1], store)
      && Rest(jobs[..|jobs| - 1], store).Keys !! Listed(jobs[|jobs| - 1], store).Keys
  }

  /** A scan under way: what was inserted, with what is still to be listed, makes up `goal`. */
  ghost predicate Scanning(before: Entries, now: Entries, rest: Entries, goal: Entries) {
    var done := now - before.Keys;
    && now == before + done
    && goal == done + rest
    && done.Keys !! rest.Keys
  }

  lemma ScanStart(before: Entries, goal: Entries)
    ensures Scanning(before, before, goal, goal)
  {
    assert before - before.Keys == map[];
    assert map[] + goal == goal;
  }

  lemma ScanEnd(before: Entries, now: Entries, goal: Entries)
    requires Scanning(before, now, map[], goal)
    ensures now == before + goal && before.Keys !! goal.Keys
  {
    assert goal == now - before.Keys;
  }

  /** Inserting one fresh listed entry. */
  lemma ScanInsert(before: Entries, now: Entries, rest: Entries, goal: Entries, path: Path, entry: Entry, more: Entries)
    requires Scanning(before, now, rest, goal)
    requires path !in more && rest == more[path := entry] && path !in now
    ensures Scanning(before, now[path := entry], more, goal)
  {
    assert now[path := entry] - before.Keys == (now - before.Keys)[path := entry];
    assert goal == (now - before.Keys)[path := entry] + more;
  }

  /** A listed path that is present already was there before the scan. */
  lemma ScanClash(before: Entries, now: Entries, rest: Entries, goal: Entries, path: Path)
    requires Scanning(before, now, rest, goal) && path in rest && path in now
    ensures path in before && path in goal
  {
  }

  lemma RestPush(jobs: seq<Job>, job: Job, store: nat)
    ensures Rest(jobs + [job], store) == Rest(jobs, store) + Listed(job, store)
    ensures Disjoint(jobs + [job], store) <==>
              Disjoint(jobs, store) && Rest(jobs, store).Keys !! Listed(job, store).Keys
  {
    assert (jobs + [job])[..|jobs|] == jobs;
  }

  lemma RestEmpty(jobs: seq<Job>, job: Job, store: nat)
    requires job.children == []
    ensures Rest(jobs + [job], store) == Rest(jobs, store)
    ensures Disjoint(jobs + [job], store) <==> Disjoint(jobs, store)
  {
    RestPush(jobs, job, store);
    assert Rest(jobs, store) + map[] == Rest(jobs, store);
  }

  /** One child of the current job, moved from what is listed to what is inserted or pushed. */
  lemma ChildStep(jobs: seq<Job>, job: Job, store: nat) returns (pushed: seq<Job>)
    requires job.children != [] && DistinctNames(job.children) && Disjoint(jobs + [job], store)
    ensures
      var child := job.children[0];
      var path, next := job.prefix + [child.name], job.(children := job.children[1..]);
      var entry := EntryOf(child.node, store, job.place + [child.name]);
      && pushed == (if child.node.Dir? then jobs + [Enter(job, child)] else jobs)
      && Disjoint(pushed + [next], store)
      && path !in Rest(pushed + [next], store)
      && Rest(jobs + [job], store) == Rest(pushed + [next], store)[path := entry]
  {
    hide Rest, Disjoint;
    var child := job.children[0];
    var next, path := job.(children := job.children[1..]), job.prefix + [child.name];
    var entry := EntryOf(child.node, store, job.place + [child.name]);
    pushed := if child.node.Dir? then jobs + [Enter(job, child)] else jobs;
    RestPush(jobs, job, store);
    SiblingsDisjoint(job, store);
    RestPush(pushed, next, store);
    var inner := if child.node.Dir? then Listed(Enter(job, child), store) else map[];
    assert Listed(job, store) == inner[path := entry] + Listed(next, store);
    hide Listed;
    if child.node.Dir? {
      RestPush(jobs, Enter(job, child), store);
    } else {
      assert Rest(jobs, store) + map[] == Rest(jobs, store);
    }
    MoveEntry(Rest(jobs, store), inner, Listed(next, store), path, entry);
  }

  lemma MoveEntry(stacked: Entries, inner: Entries, next: Entries, path: Path, entry: Entry)
    requires path !in inner && inner[path := entry].Keys !! next.Keys
    requires stacked.Keys !! (inner[path := entry] + next).Keys
    ensures stacked.Keys !! inner.Keys && (stacked + inner).Keys !! next.Keys
    ensures path !in stacked + inner + next
    ensures stacked + (inner[path := entry] + next) == (stacked + inner + next)[path := entry]
  {
  }

  // ---- Termination ----

  ghost function Size(children: seq<Child>): nat {
    if children == [] then 0 else NodeSize(children[0].node) + Size(children[1..])
  }

  ghost function NodeSize(node: Node): nat {
    match node case Dir(tree) => 2 + Size(tree.children) case _ => 1
  }

  ghost function Work(jobs: seq<Job>): nat {
    if jobs == [] then 0 else Work(jobs[..|jobs| - 1]) + 1 + Size(jobs[|jobs| - 1].children)
  }

  lemma WorkPush(jobs: seq<Job>, job: Job)
    ensures Work(jobs + [job]) == Work(jobs) + 1 + Size(job.children)
  {
    assert (jobs + [job])[..|jobs|] == jobs;
  }

  lemma WorkStep(jobs: seq<Job>, job: Job)
    requires job.children != []
    ensures
      var next := job.(children := job.children[1..]);
      && (job.children[0].node.Dir? ==>
            Work(jobs + [Enter(job, job.children[0])] + [next]) <= Work(jobs + [job]))
      && (!job.children[0].node.Dir? ==> Work(jobs + [next]) <= Work(jobs + [job]))
  {
    var child, next := job.children[0], job.(children := job.children[1..]);
    WorkPush(jobs, job);
    WorkPush(jobs, next);
    if child.node.Dir? {
      WorkPush(jobs, Enter(job, child));
      WorkPush(jobs + [Enter(job, child)], next);
    }
  }

  // ---- Soundness of what is left ----

  ghost predicate AllSound(jobs: seq<Job>) {
    forall job <- jobs :: Sound(job.children)
  }

  lemma SoundStep(jobs: seq<Job>, job: Job)
    requires job.children != [] && Level(job.children)
    ensures
      var child, next := job.children[0], job.(children := job.children[1..]);
      && Level(next.children)
      && (match child.node
          case Dir(_) => AllSound(jobs + [job]) <==> AllSound(jobs + [Enter(job, child)] + [next])
          case Link(target) => AllSound(jobs + [job]) <==> ValidTarget(target) && AllSound(jobs + [next])
          case _ => AllSound(jobs + [job]) <==> AllSound(jobs + [next]))
  {
    var child, next := job.children[0], job.(children := job.children[1..]);
    assert Sound(job.children) <==> SoundNode(child.node) && Sound(next.children) by {
      assert forall i | 0 < i < |job.children| :: job.children[i] == next.children[i - 1];
    }
    SoundPush(jobs, job);
    SoundPush(jobs, next);
    if child.node.Dir? {
      SoundPush(jobs, Enter(job, child));
      SoundPush(jobs + [Enter(job, child)], next);
    }
  }

  lemma SoundPush(jobs: seq<Job>, job: Job)
    ensures AllSound(jobs + [job]) <==> AllSound(jobs) && Sound(job.children)
  {
    assert job in jobs + [job];
    assert forall other <- jobs :: other in jobs + [job];
  }

  lemma SoundEmpty(jobs: seq<Job>, job: Job)
    requires job.children == []
    ensures AllSound(jobs + [job]) <==> AllSound(jobs)
  {
    SoundPush(jobs, job);
  }
}
