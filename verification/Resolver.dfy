/**
  Resolving a path against captured entries: a worklist with a link budget,
  against nested physical resolution as POSIX.1-2017 section 4.13 describes it,
  limited to relative links inside the tree.
  */
module Resolver {
  import opened Wrappers
  import opened Bytes
  import opened Paths

  type Oid = seq<Byte>

  datatype Entry =
    | Directory
    | Module(store: nat, path: Path, oid: Oid)
    | File(store: nat, executable: bool, oid: Oid)
    | Symlink(target: seq<Byte>)

  type Entries = map<Path, Entry>

  const MAX_LINKS := 40

  datatype Outcome =
    | Found(path: Path)
    | Missing
    | Escapes
    | NeedsModule(path: Path)

  /** The components a link stands for, with "." for a demanded directory. */
  function LinkParts(target: seq<Byte>): Path {
    Components(target) + (if DemandsDirectory(target) then [DOT] else [])
  }

  predicate IsDirectory(entries: Entries, path: Path) {
    path == [] || (path in entries && entries[path].Directory?)
  }

  /** The worklist: `pending` components left to walk from `resolved`. */
  function Walk(entries: Entries, resolved: Path, pending: Path, links: nat): Outcome
    requires links <= MAX_LINKS
    decreases MAX_LINKS - links, |pending|
  {
    if pending == [] then Found(resolved)
    else
      var part, rest := pending[0], pending[1..];
      if part == DOT then Walk(entries, resolved, rest, links)
      else if part == PARENT then
        if resolved == [] then Escapes else Walk(entries, resolved[..|resolved| - 1], rest, links)
      else
        var next := resolved + [part];
        if next !in entries then Missing
        else match entries[next]
          case Module(_, _, _) => NeedsModule(next)
          case Symlink(target) =>
            if links + 1 > MAX_LINKS || Absolute(target) then Escapes
            else Walk(entries, resolved, LinkParts(target) + rest, links + 1)
          case File(_, _, _) => if rest != [] then Missing else Walk(entries, next, rest, links)
          case Directory => Walk(entries, next, rest, links)
  }

  /**
    Physical resolution: each link is first resolved on its own, from the
    directory that holds it, and whatever is followed by more components must
    be a directory. Returns the path and the links left.
    */
  ghost function Physical(entries: Entries, cwd: Path, parts: Path, budget: nat): (r: Option<(Path, nat)>)
    ensures r.Some? ==> r.value.1 <= budget
    decreases budget, |parts|
  {
    if parts == [] then Some((cwd, budget))
    else
      var (next, left) :- Lookup(entries, cwd, parts[0], budget);
      if parts[1..] != [] && !IsDirectory(entries, next) then None
      else Physical(entries, next, parts[1..], left)
  }

  /** One component, with any link in it followed. */
  ghost function Lookup(entries: Entries, cwd: Path, part: Name, budget: nat): (r: Option<(Path, nat)>)
    ensures r.Some? ==> r.value.1 <= budget
    decreases budget, 0
  {
    if part == DOT then Some((cwd, budget))
    else if part == PARENT then if cwd == [] then None else Some((cwd[..|cwd| - 1], budget))
    else if cwd + [part] !in entries then None
    else match entries[cwd + [part]]
      case Module(_, _, _) => None
      case Symlink(target) =>
        if budget == 0 || Absolute(target) then None
        else Physical(entries, cwd, LinkParts(target), budget - 1)
      case File(_, _, _) => Some((cwd + [part], budget))
      case Directory => Some((cwd + [part], budget))
  }

  /** What is left to do once a prefix has been resolved to `r`. */
  ghost predicate Continues(entries: Entries, r: Option<(Path, nat)>, rest: Path, result: Outcome)
    requires r.Some? ==> r.value.1 <= MAX_LINKS
  {
    match r
    case None => !result.Found?
    case Some((path, left)) =>
      if rest != [] && !IsDirectory(entries, path) then !result.Found?
      else result == Walk(entries, path, rest, MAX_LINKS - left)
  }

  /** Everything above a resolved path is a directory, so is itself or it is a file. */
  ghost predicate Anchored(entries: Entries, path: Path) {
    && (forall i | 0 < i < |path| :: IsDirectory(entries, path[..i]))
    && (path != [] ==> path in entries && (entries[path].Directory? || entries[path].File?))
  }

  /** The worklist resolves a concatenation by resolving its first half physically. */
  lemma {:induction false} WalkSplit(entries: Entries, cwd: Path, parts: Path, rest: Path, budget: nat)
    requires budget <= MAX_LINKS && IsDirectory(entries, cwd) && Anchored(entries, cwd)
    ensures Continues(entries, Physical(entries, cwd, parts, budget), rest,
                      Walk(entries, cwd, parts + rest, MAX_LINKS - budget))
    ensures Physical(entries, cwd, parts, budget).Some? ==>
              Anchored(entries, Physical(entries, cwd, parts, budget).value.0)
    decreases budget, |parts|
  {
    if parts == [] {
      assert parts + rest == rest;
    } else {
      var part, more := parts[0], parts[1..];
      assert (parts + rest)[1..] == more + rest;
      if part == DOT {
        assert Physical(entries, cwd, parts, budget) == Physical(entries, cwd, more, budget);
        WalkSplit(entries, cwd, more, rest, budget);
      } else if part == PARENT {
        if cwd != [] {
          var up := cwd[..|cwd| - 1];
          assert forall i | 0 < i < |up| :: up[..i] == cwd[..i];
          WalkSplit(entries, up, more, rest, budget);
        }
      } else {
        ComponentSplit(entries, cwd, parts, rest, budget);
      }
    }
  }

  lemma {:induction false} ComponentSplit(entries: Entries, cwd: Path, parts: Path, rest: Path, budget: nat)
    requires parts != [] && parts[0] != DOT && parts[0] != PARENT
    requires budget <= MAX_LINKS && IsDirectory(entries, cwd) && Anchored(entries, cwd)
    ensures Continues(entries, Physical(entries, cwd, parts, budget), rest,
                      Walk(entries, cwd, parts + rest, MAX_LINKS - budget))
    ensures Physical(entries, cwd, parts, budget).Some? ==>
              Anchored(entries, Physical(entries, cwd, parts, budget).value.0)
    decreases budget, |parts|, 0
  {
    var more, next := parts[1..], cwd + [parts[0]];
    assert (parts + rest)[1..] == more + rest;
    assert forall i | 0 < i < |next| :: next[..i] == if i == |cwd| then cwd else cwd[..i];
    if next in entries {
      match entries[next]
      case Module(_, _, _) =>
      case File(_, _, _) =>
        assert next != [] && !IsDirectory(entries, next);
        assert Physical(entries, cwd, parts, budget) == if more == [] then Some((next, budget)) else None;
        if more == [] {
          assert more + rest == rest;
        }
      case Directory =>
        assert Physical(entries, cwd, parts, budget) == Physical(entries, next, more, budget);
        WalkSplit(entries, next, more, rest, budget);
      case Symlink(target) =>
        if budget > 0 && !Absolute(target) {
          var linked := Physical(entries, cwd, LinkParts(target), budget - 1);
          assert Lookup(entries, cwd, parts[0], budget) == linked;
          assert Physical(entries, cwd, parts, budget) ==
                 if linked == None || (more != [] && !IsDirectory(entries, linked.value.0)) then None
                 else Physical(entries, linked.value.0, more, linked.value.1);
          assert Walk(entries, cwd, parts + rest, MAX_LINKS - budget) ==
                 Walk(entries, cwd, LinkParts(target) + (more + rest), MAX_LINKS - budget + 1);
          LinkSplit(entries, cwd, target, more, rest, budget);
        }
    }
  }

  lemma {:induction false} LinkSplit(entries: Entries, cwd: Path, target: seq<Byte>, more: Path, rest: Path, budget: nat)
    requires 0 < budget <= MAX_LINKS && IsDirectory(entries, cwd) && Anchored(entries, cwd)
    ensures
      var walked := Walk(entries, cwd, LinkParts(target) + (more + rest), MAX_LINKS - budget + 1);
      var linked := Physical(entries, cwd, LinkParts(target), budget - 1);
      var whole := if linked == None || (more != [] && !IsDirectory(entries, linked.value.0)) then None
                   else Physical(entries, linked.value.0, more, linked.value.1);
      && Continues(entries, whole, rest, walked)
      && (whole.Some? ==> Anchored(entries, whole.value.0))
    decreases budget, 0
  {
    WalkSplit(entries, cwd, LinkParts(target), more + rest, budget - 1);
    var linked := Physical(entries, cwd, LinkParts(target), budget - 1);
    if linked.Some? {
      if more == [] {
        assert more + rest == rest;
      } else if IsDirectory(entries, linked.value.0) {
        WalkSplit(entries, linked.value.0, more, rest, linked.value.1);
      }
    }
  }

  /**
    Resolution is physical resolution with at most 40 links: it succeeds
    exactly when that does, with the same path, every proper prefix of which
    is a captured directory.
    */
  lemma ResolvesPhysically(entries: Entries, path: Path)
    ensures forall p :: Walk(entries, [], path, 0) == Found(p) <==>
                        exists left: nat :: Physical(entries, [], path, MAX_LINKS) == Some((p, left))
    ensures Walk(entries, [], path, 0).Found? ==> Anchored(entries, Walk(entries, [], path, 0).path)
  {
    WalkSplit(entries, [], path, [], MAX_LINKS);
    assert path + [] == path;
    hide Walk, Physical;
    var r := Physical(entries, [], path, MAX_LINKS);
    if r.Some? {
      assert Walk(entries, r.value.0, [], MAX_LINKS - r.value.1) == Found(r.value.0) by {
        WalkNothing(entries, r.value.0, MAX_LINKS - r.value.1);
      }
      assert r == Some((r.value.0, r.value.1));
    }
  }

  lemma WalkNothing(entries: Entries, path: Path, links: nat)
    requires links <= MAX_LINKS
    ensures Walk(entries, path, [], links) == Found(path)
  {
  }

  /** A module error always names a live module entry. */
  lemma {:induction false} NeedsLiveModule(entries: Entries, resolved: Path, pending: Path, links: nat)
    requires links <= MAX_LINKS && Walk(entries, resolved, pending, links).NeedsModule?
    ensures var p := Walk(entries, resolved, pending, links).path; p in entries && entries[p].Module?
    decreases MAX_LINKS - links, |pending|
  {
    var part, rest := pending[0], pending[1..];
    if part == DOT {
      NeedsLiveModule(entries, resolved, rest, links);
    } else if part == PARENT {
      NeedsLiveModule(entries, resolved[..|resolved| - 1], rest, links);
    } else {
      var next := resolved + [part];
      match entries[next]
      case Module(_, _, _) =>
      case Symlink(target) => NeedsLiveModule(entries, resolved, LinkParts(target) + rest, links + 1);
      case File(_, _, _) => NeedsLiveModule(entries, next, rest, links);
      case Directory => NeedsLiveModule(entries, next, rest, links);
    }
  }

  /** The resolver of COPY sources. */
  method Resolve(entries: Entries, path: Path) returns (outcome: Outcome)
    ensures outcome == Walk(entries, [], path, 0)
  {
    var pending, resolved, links := path, [], 0;
    while pending != []
      invariant links <= MAX_LINKS
      invariant Walk(entries, resolved, pending, links) == Walk(entries, [], path, 0)
      decreases MAX_LINKS - links, |pending|
    {
      var part := pending[0];
      pending := pending[1..];
      if part == DOT {
        continue;
      }
      if part == PARENT {
        if resolved == [] {
          return Escapes;
        }
        resolved := resolved[..|resolved| - 1];
        continue;
      }
      resolved := resolved + [part];
      if resolved !in entries {
        return Missing;
      }
      match entries[resolved] {
        case Module(_, _, _) => return NeedsModule(resolved);
        case Symlink(target) =>
          links := links + 1;
          if links > MAX_LINKS || Absolute(target) {
            return Escapes;
          }
          resolved := resolved[..|resolved| - 1];
          assert LinkParts(target) + pending ==
                 Components(target) + ((if DemandsDirectory(target) then [DOT] else []) + pending);
          if DemandsDirectory(target) {
            pending := [DOT] + pending;
          } else {
            assert [] + pending == pending;
          }
          pending := Components(target) + pending;
        case File(_, _, _) =>
          if pending != [] {
            return Missing;
          }
        case Directory =>
      }
    }
    return Found(resolved);
  }
}
