/**
  Selecting COPY sources in captured entries: explicit components are resolved
  through links; from the first wildcard on, names are matched level by level
  and links are leaves.
  */
module Selection {
  import opened Wrappers
  import opened Bytes
  import opened Orders
  import opened Paths
  import opened Resolver
  import opened Utf8
  import opened Glob
  import opened GlobParser
  import opened Context

  /** Entries with the key enumeration of an ordered map. */
  datatype Index = Index(entries: Entries, keys: seq<Path>) {
    ghost predicate Valid() {
      Ascending(PathLess, keys) && forall q :: q in keys <==> q in entries
    }
  }

  datatype Failure =
    | NoMatch
    | BadPattern
    | Unresolved
    | ModuleNeeded(path: Path)

  datatype Result<+T> = Done(value: T) | Failed(failure: Failure)

  // ---- Patterns ----

  /** Does a component have an unescaped `*`, `?` or `[`? */
  function Wild(part: string): bool {
    if part == "" then false
    else if part[0] == '\\' then 1 < |part| && Wild(part[2..])
    else part[0] == '*' || part[0] == '?' || part[0] == '[' || Wild(part[1..])
  }

  function ParsePart(part: string): Option<seq<Token>> {
    if part == ".." || '\0' in part then None else Tokens(part)
  }

  function Parses(parts: seq<string>): bool {
    forall part <- parts :: ParsePart(part).Some?
  }

  /** The index of the first wildcard component, or the length. */
  function FirstWild(parts: seq<string>): (n: nat)
    ensures n <= |parts|
    ensures forall i | 0 <= i < n :: !Wild(parts[i])
    ensures n < |parts| ==> Wild(parts[n])
  {
    if parts == [] || Wild(parts[0]) then 0 else 1 + FirstWild(parts[1..])
  }

  // ---- The explicit part ----

  /** The directory a path leads to, with links resolved; nothing when it is no directory. */
  function Enter(entries: Entries, path: Path): Result<Option<Path>> {
    if IsModule(entries, path) then Failed(ModuleNeeded(path))
    else match Walk(entries, [], path, 0)
      case Found(actual) => Done(if IsDirectory(entries, actual) then Some(actual) else None)
      case NeedsModule(module_) => Failed(ModuleNeeded(module_))
      case _ => Failed(Unresolved)
  }

  /** The path that explicit components name; each but the last is entered. */
  function Explicit(entries: Entries, parts: seq<string>): Result<Option<Path>> {
    if parts == [] then Done(Some([]))
    else
      var last := |parts| - 1;
      match Explicit(entries, parts[..last])
      case Done(Some(path)) =>
        (match Enter(entries, path)
         case Done(Some(actual)) => Done(Some(actual + [EncodeAll(parts[last])]))
         case other => other)
      case other => other
  }

  // ---- The wildcard part ----

  /**
    What the components from the first wildcard on select below `base`: existing
    paths whose names match component by component, through real directories.
    */
  ghost function Matched(entries: Entries, base: Path, parts: seq<string>): set<Path>
    requires Parses(parts)
  {
    set q | q in entries && Matching(entries, base, parts, q)
  }

  ghost predicate Matching(entries: Entries, base: Path, parts: seq<string>, q: Path)
    requires Parses(parts)
  {
    && base <= q && |q| == |base| + |parts|
    && (forall i | 0 <= i < |parts| :: Match(ParsePart(parts[i]).value, q[|base| + i], 0))
    && (forall n | |base| < n < |q| :: IsDirectory(entries, q[..n]))
  }

  /** An unexpanded module stands where the match would have to go on. */
  ghost predicate Obstructed(entries: Entries, base: Path, parts: seq<string>)
    requires Parses(parts)
  {
    exists j, q | 0 < j < |parts| && q in Matched(entries, base, parts[..j]) :: IsModule(entries, q)
  }

  ghost predicate IsChild(entries: Entries, parent: Path, tokens: seq<Token>, q: Path) {
    q in entries && |q| == |parent| + 1 && parent <= q && Match(tokens, q[|parent|], 0)
  }

  lemma MatchedFirst(entries: Entries, base: Path, part: string, q: Path)
    requires ParsePart(part).Some?
    ensures q in Matched(entries, base, [part]) <==> IsChild(entries, base, ParsePart(part).value, q)
  {
    hide Match, ParsePart, IsDirectory;
    assert [part][0] == part;
  }

  /** One more component selects the matching children of the directories selected so far. */
  lemma MatchedNext(entries: Entries, base: Path, parts: seq<string>, part: string, q: Path)
    requires Parses(parts) && parts != [] && ParsePart(part).Some?
    ensures Parses(parts + [part])
    ensures q in Matched(entries, base, parts + [part]) <==>
              && q != [] && IsChild(entries, q[..|q| - 1], ParsePart(part).value, q)
              && q[..|q| - 1] in Matched(entries, base, parts) && IsDirectory(entries, q[..|q| - 1])
  {
    hide Match, ParsePart;
    var more := parts + [part];
    assert more[..|parts|] == parts && more[|parts|] == part;
    if q != [] {
      var parent := q[..|q| - 1];
      assert forall n | 0 <= n <= |parent| :: parent[..n] == q[..n];
      if Matching(entries, base, more, q) {
        assert q[..|parent|] == parent;
        forall i | 0 <= i < |parts|
          ensures Match(ParsePart(parts[i]).value, parent[|base| + i], 0)
        {
          assert more[i] == parts[i];
        }
        assert IsDirectory(entries, parent);
      }
    }
  }

  // ---- Selection ----

  /** The matching direct children of a directory, from the subtree index. */
  method Children(index: Index, parent: Path, tokens: seq<Token>) returns (found: seq<Path>)
    requires index.Valid()
    ensures Distinct(found)
    ensures forall q :: q in found <==> IsChild(index.entries, parent, tokens, q)
  {
    hide IsChild, Range;
    var run := Range(index.keys, parent);
    RunMembers(index, parent, tokens);
    found := [];
    for i := 0 to |run|
      invariant forall q :: q in found <==> IsChild(index.entries, parent, tokens, q) && q in run[..i]
      invariant Distinct(found)
    {
      assert run[..i + 1] == run[..i] + [run[i]];
      var matches := MatchesChild(index, parent, tokens, run[i]);
      if matches {
        found := found + [run[i]];
      }
    }
    assert run[..|run|] == run;
  }

  /** Does a path at or below `parent` lie directly in it, with a matching name? */
  method MatchesChild(index: Index, parent: Path, tokens: seq<Token>, q: Path) returns (matches: bool)
    requires q in index.entries && parent <= q
    ensures matches <==> IsChild(index.entries, parent, tokens, q)
  {
    hide Match;
    if |q| != |parent| + 1 {
      return false;
    }
    matches := Matches(tokens, q[|parent|]);
  }

  /** The run of the index at a directory: distinct, and every matching child is in it. */
  lemma RunMembers(index: Index, parent: Path, tokens: seq<Token>)
    requires index.Valid()
    ensures Distinct(Range(index.keys, parent))
    ensures forall q <- Range(index.keys, parent) :: q in index.entries && parent <= q
    ensures forall q | IsChild(index.entries, parent, tokens, q) :: q in Range(index.keys, parent)
  {
    hide PathLess, Range, Match;
    RangeIsFilter(index.keys, parent);
    UnderMembers(index.keys, parent);
    RangeAscending(index.keys, parent);
    AscendingDistinct(Range(index.keys, parent));
  }

  lemma RangeAscending(keys: seq<Path>, from: Path)
    requires Ascending(PathLess, keys)
    ensures Ascending(PathLess, Range(keys, from))
  {
    hide PathLess;
    DropAscending(keys, from);
    TakeAscending(DropWhile(keys, from), from);
  }

  lemma {:induction false} DropAscending(keys: seq<Path>, from: Path)
    requires Ascending(PathLess, keys)
    ensures Ascending(PathLess, DropWhile(keys, from))
  {
    hide PathLess;
    if keys != [] {
      DropAscending(keys[1..], from);
    }
  }

  lemma {:induction false} TakeAscending(keys: seq<Path>, from: Path)
    requires Ascending(PathLess, keys)
    ensures TakeWhile(keys, from) <= keys && Ascending(PathLess, TakeWhile(keys, from))
  {
    hide PathLess;
    if keys != [] {
      TakeAscending(keys[1..], from);
    }
  }

  /** Where the walk goes on from `path`: itself once walking, what it resolves to before. */
  function Current(entries: Entries, path: Path, walking: bool): Result<Option<Path>> {
    if !walking then Enter(entries, path)
    else if IsModule(entries, path) then Failed(ModuleNeeded(path))
    else Done(if IsDirectory(entries, path) then Some(path) else None)
  }

  /** One path and one component. */
  method StepPath(index: Index, path: Path, part: string, tokens: seq<Token>, walking: bool)
    returns (next: Result<seq<Path>>)
    requires index.Valid() && ParsePart(part) == Some(tokens)
    ensures
      match Current(index.entries, path, walking)
      case Failed(failure) => next == Failed(failure)
      case Done(None) => next == Done([])
      case Done(Some(actual)) =>
        && next.Done? && Distinct(next.value)
        && if walking || Wild(part)
           then forall q :: q in next.value <==> IsChild(index.entries, actual, tokens, q)
           else next.value == [actual + [EncodeAll(part)]]
  {
    hide Match, ParsePart, Walk;
    if IsModule(index.entries, path) {
      return Failed(ModuleNeeded(path));
    }
    var actual := path;
    if walking {
      if path != [] && !IsDirectory(index.entries, path) {
        return Done([]);
      }
    } else {
      var outcome := Resolve(index.entries, path);
      match outcome {
        case Found(found) => actual := found;
        case NeedsModule(module_) => return Failed(ModuleNeeded(module_));
        case _ => return Failed(Unresolved);
      }
    }
    if !IsDirectory(index.entries, actual) {
      return Done([]);
    }
    if Wild(part) || walking {
      var children := Children(index, actual, tokens);
      return Done(children);
    }
    return Done([actual + [EncodeAll(part)]]);
  }

  /** `q` is a continuation of `path` by one component. */
  ghost predicate Continues(entries: Entries, path: Path, part: string, tokens: seq<Token>, walking: bool, q: Path) {
    match Current(entries, path, walking)
    case Done(Some(actual)) =>
      if walking || Wild(part) then IsChild(entries, actual, tokens, q) else q == actual + [EncodeAll(part)]
    case _ => false
  }

  /** All paths and one component, before sorting. */
  method StepAll(index: Index, paths: seq<Path>, part: string, tokens: seq<Token>, walking: bool)
    returns (next: Result<seq<Path>>)
    requires index.Valid() && ParsePart(part) == Some(tokens)
    requires Distinct(paths) && (!walking ==> |paths| <= 1)
    ensures
      match next
      case Failed(failure) => exists path <- paths :: Current(index.entries, path, walking) == Failed(failure)
      case Done(found) =>
        && (forall path <- paths :: Current(index.entries, path, walking).Done?)
        && Distinct(found)
        && forall q :: q in found <==> exists path <- paths :: Continues(index.entries, path, part, tokens, walking, q)
  {
    hide Match, ParsePart, Walk, Enter, EncodeAll, Wild;
    var found := [];
    for i := 0 to |paths|
      invariant forall path <- paths[..i] :: Current(index.entries, path, walking).Done?
      invariant Distinct(found)
      invariant forall q :: q in found <==>
                  exists path <- paths[..i] :: Continues(index.entries, path, part, tokens, walking, q)
    {
      var path := paths[i];
      assert path in paths && paths[..i + 1] == paths[..i] + [path];
      var more := StepPath(index, path, part, tokens, walking);
      if more.Failed? {
        return more;
      }
      forall q, other | other in paths[..i] && Continues(index.entries, other, part, tokens, walking, q)
        ensures Continues(index.entries, path, part, tokens, walking, q) ==> other == path
      {
        if walking && Continues(index.entries, path, part, tokens, walking, q) {
          OneParent(index.entries, path, part, tokens, q);
          OneParent(index.entries, other, part, tokens, q);
        }
      }
      assert path !in paths[..i];
      assert forall q :: q in more.value <==> Continues(index.entries, path, part, tokens, walking, q);
      DistinctConcat(found, more.value);
      found := found + more.value;
    }
    assert paths[..|paths|] == paths;
    return Done(found);
  }

  /** While walking, a path continues its parent only. */
  lemma OneParent(entries: Entries, path: Path, part: string, tokens: seq<Token>, q: Path)
    requires Continues(entries, path, part, tokens, true, q)
    ensures q != [] && path == q[..|q| - 1]
  {
    hide Match, Wild;
  }

  lemma DistinctConcat(a: seq<Path>, b: seq<Path>)
    requires Distinct(a) && Distinct(b) && forall q <- b :: q !in a
    ensures Distinct(a + b)
  {
    assert forall i | 0 <= i < |b| :: b[i] in b;
  }

  /** What the explicit components lead to: the selected path, or the directory to search. */
  function Base(entries: Entries, parts: seq<string>): Result<Option<Path>> {
    var n := FirstWild(parts);
    match Explicit(entries, parts[..n])
    case Done(Some(path)) => if n == |parts| then Done(Some(path)) else Enter(entries, path)
    case other => other
  }

  /** One pattern can be walked to its end. */
  ghost predicate Walkable(entries: Entries, parts: seq<string>) {
    && Parses(parts)
    && match Base(entries, parts)
       case Failed(_) => false
       case Done(None) => true
       case Done(Some(base)) => !Obstructed(entries, base, parts[FirstWild(parts)..])
  }

  /** The module at `path` keeps a pattern from being walked any further. */
  ghost predicate Blocks(entries: Entries, parts: seq<string>, path: Path) {
    IsModule(entries, path) &&
    match Base(entries, parts)
    case Failed(failure) => failure == ModuleNeeded(path)
    case Done(None) => false
    case Done(Some(base)) => StandsAmong(entries, base, parts, FirstWild(parts), path)
  }

  /** `path` is selected by some of the components from `n` on, and more are to follow. */
  ghost predicate StandsAmong(entries: Entries, base: Path, parts: seq<string>, n: nat, path: Path) {
    exists k: nat | n < k < |parts| && Parses(parts[n..k]) :: path in Matched(entries, base, parts[n..k])
  }

  lemma BlockedIsNotWalkable(entries: Entries, parts: seq<string>, path: Path)
    requires Blocks(entries, parts, path)
    ensures !Walkable(entries, parts)
  {
    hide Matched, Base, FirstWild, IsModule;
    var n, base := FirstWild(parts), Base(entries, parts);
    if Parses(parts) && base.Done? {
      hide Parses, Obstructed;
      var k: nat :| n < k < |parts| && Parses(parts[n..k]) && path in Matched(entries, base.value.value, parts[n..k]);
      var tail := parts[n..];
      assert tail[..k - n] == parts[n..k];
      ParsesPart(parts, n, |parts|);
      assert parts[n..|parts|] == tail;
      ObstructedAt(entries, base.value.value, tail, k - n, path);
    }
  }

  /** The paths of one pattern. */
  ghost predicate Picks(entries: Entries, parts: seq<string>, paths: seq<Path>) {
    && Walkable(entries, parts)
    && match Base(entries, parts)
       case Done(None) => paths == []
       case Done(Some(base)) =>
         (var n := FirstWild(parts);
         if n == |parts| then paths == [base]
         else Ascending(PathLess, paths) && forall q :: q in paths <==> q in Matched(entries, base, parts[n..]))
       case _ => false
  }

  /** The state of the walk after `k` components. */
  ghost predicate Walked(entries: Entries, parts: seq<string>, k: nat, paths: seq<Path>)
    requires k <= |parts|
  {
    var n := FirstWild(parts);
    && Parses(parts[..k])
    && if k <= n then
         match Explicit(entries, parts[..k])
         case Failed(_) => false
         case Done(None) => paths == []
         case Done(Some(path)) => paths == [path]
       else
         match Base(entries, parts)
         case Failed(_) => false
         case Done(None) => paths == []
         case Done(Some(base)) =>
           && !Obstructed(entries, base, parts[n..k])
           && Ascending(PathLess, paths) && forall q :: q in paths <==> q in Matched(entries, base, parts[n..k])
  }

  method SelectPaths(index: Index, parts: seq<string>) returns (picked: Result<seq<Path>>)
    requires index.Valid()
    ensures
      match picked
      case Done(paths) => Picks(index.entries, parts, paths)
      case Failed(failure) =>
        && !Walkable(index.entries, parts) && failure != NoMatch
        && (failure.ModuleNeeded? ==> Blocks(index.entries, parts, failure.path))
        && (failure.BadPattern? ==> !Parses(parts))
        && (failure.Unresolved? ==> Base(index.entries, parts) == Failed(Unresolved))
  {
    hide Walked, Picks, Parses, Base, Wild, ParsePart, Sort, Current, Continues, Blocks;
    var paths: seq<Path> := [[]];
    var walking := false;
    WalkedStart(index.entries, parts);
    for k := 0 to |parts|
      invariant Walked(index.entries, parts, k, paths) && Distinct(paths)
      invariant walking <==> k > FirstWild(parts)
    {
      var tokens := ParsePart(parts[k]);
      if tokens == None {
        NotParsed(parts, k);
        return Failed(BadPattern);
      }
      WalkedSmall(index.entries, parts, k, paths);
      var next := StepAll(index, paths, parts[k], tokens.value, walking);
      if next.Failed? {
        StepFails(index.entries, parts, k, paths, next.failure);
        return next;
      }
      PathOrder();
      SortAscending(PathLess, next.value);
      WalkedStep(index.entries, parts, k, paths, tokens.value, next.value);
      paths := Sort(PathLess, next.value);
      FirstWildStep(parts, k);
      walking := walking || Wild(parts[k]);
    }
    WalkedEnd(index.entries, parts, paths);
    return Done(paths);
  }

  lemma WalkedStart(entries: Entries, parts: seq<string>)
    ensures Walked(entries, parts, 0, [[]])
  {
  }

  lemma WalkedSmall(entries: Entries, parts: seq<string>, k: nat, paths: seq<Path>)
    requires k <= |parts| && Walked(entries, parts, k, paths)
    ensures k <= FirstWild(parts) ==> |paths| <= 1
  {
  }

  lemma WalkedEnd(entries: Entries, parts: seq<string>, paths: seq<Path>)
    requires Walked(entries, parts, |parts|, paths)
    ensures Picks(entries, parts, paths)
  {
    hide ParsePart, Matched, Enter;
    assert parts[..|parts|] == parts;
  }

  lemma NotParsed(parts: seq<string>, k: nat)
    requires k < |parts| && ParsePart(parts[k]) == None
    ensures !Parses(parts)
  {
    assert parts[k] in parts;
  }

  lemma FirstWildStep(parts: seq<string>, k: nat)
    requires k < |parts|
    ensures k + 1 > FirstWild(parts) <==> k > FirstWild(parts) || Wild(parts[k])
  {
  }

  lemma StepFails(entries: Entries, parts: seq<string>, k: nat, paths: seq<Path>, failure: Failure)
    requires k < |parts| && Walked(entries, parts, k, paths)
    requires exists path <- paths :: Current(entries, path, k > FirstWild(parts)) == Failed(failure)
    ensures failure.ModuleNeeded? || failure.Unresolved?
    ensures failure.ModuleNeeded? ==> Blocks(entries, parts, failure.path)
    ensures failure.Unresolved? ==> Base(entries, parts) == Failed(Unresolved)
    ensures !Walkable(entries, parts)
  {
    hide Walked, Walkable, Matched, Parses, Enter, Blocks;
    var path :| path in paths && Current(entries, path, k > FirstWild(parts)) == Failed(failure);
    if k <= FirstWild(parts) {
      EnterStops(entries, parts, k, paths, path);
    } else {
      WalkStops(entries, parts, k, paths, path);
    }
  }

  lemma EnterStops(entries: Entries, parts: seq<string>, k: nat, paths: seq<Path>, path: Path)
    requires k <= FirstWild(parts) && k < |parts| && Walked(entries, parts, k, paths)
    requires path in paths && Enter(entries, path).Failed?
    ensures var failure := Enter(entries, path).failure;
      && (failure.ModuleNeeded? || failure.Unresolved?)
      && (failure.ModuleNeeded? ==> Blocks(entries, parts, failure.path))
      && (failure.Unresolved? ==> Base(entries, parts) == Failed(Unresolved))
    ensures !Walkable(entries, parts)
  {
    hide Enter, Explicit, Base, Walked, Parses, Obstructed, Matched, FirstWild, StandsAmong;
    EnterFails(entries, path);
    ExplicitAt(entries, parts, k, paths, path);
    BaseFails(entries, parts, k, path);
  }

  /** Before the wildcards the walk holds one path: the explicit one. */
  lemma ExplicitAt(entries: Entries, parts: seq<string>, k: nat, paths: seq<Path>, path: Path)
    requires k <= FirstWild(parts) && Walked(entries, parts, k, paths) && path in paths
    ensures Explicit(entries, parts[..k]) == Done(Some(path))
  {
    hide Explicit, Parses, FirstWild;
    match Explicit(entries, parts[..k])
    case Done(Some(only)) => assert path == only;
    case Done(None) => assert false;
  }

  lemma BaseFails(entries: Entries, parts: seq<string>, k: nat, path: Path)
    requires k <= FirstWild(parts) && k < |parts| && Explicit(entries, parts[..k]) == Done(Some(path))
    requires Enter(entries, path).Failed?
    ensures Base(entries, parts) == Failed(Enter(entries, path).failure)
  {
    hide Enter, FirstWild, Explicit;
    var n := FirstWild(parts);
    if k < n {
      ExplicitStops(entries, parts, k, path);
      ExplicitFails(entries, parts, k + 1, n, Enter(entries, path).failure);
    }
  }

  lemma ExplicitStops(entries: Entries, parts: seq<string>, k: nat, path: Path)
    requires k < |parts| && Explicit(entries, parts[..k]) == Done(Some(path)) && Enter(entries, path).Failed?
    ensures Explicit(entries, parts[..k + 1]) == Failed(Enter(entries, path).failure)
  {
    hide Enter;
    SliceTwice(parts, k, k + 1);
  }

  lemma SliceTwice(parts: seq<string>, k: nat, n: nat)
    requires k <= n <= |parts|
    ensures parts[..n][..k] == parts[..k]
  {
  }

  lemma WalkStops(entries: Entries, parts: seq<string>, k: nat, paths: seq<Path>, path: Path)
    requires FirstWild(parts) < k < |parts| && Walked(entries, parts, k, paths)
    requires path in paths && IsModule(entries, path)
    ensures Blocks(entries, parts, path) && !Walkable(entries, parts)
  {
    hide Matched, Base, Parses, Walked, Walkable, FirstWild, IsModule;
    WalkedMatches(entries, parts, k, paths, path);
    assert StandsAmong(entries, Base(entries, parts).value.value, parts, FirstWild(parts), path);
    BlockedIsNotWalkable(entries, parts, path);
  }

  lemma ParsesPart(parts: seq<string>, i: nat, j: nat)
    requires i <= j <= |parts| && Parses(parts)
    ensures Parses(parts[i..j])
  {
    hide ParsePart;
  }

  /** Past the first wildcard the walk holds matches only. */
  lemma WalkedMatches(entries: Entries, parts: seq<string>, k: nat, paths: seq<Path>, path: Path)
    requires FirstWild(parts) < k <= |parts| && Walked(entries, parts, k, paths) && path in paths
    ensures Parses(parts[FirstWild(parts)..k]) && Base(entries, parts).Done? && Base(entries, parts).value.Some?
    ensures path in Matched(entries, Base(entries, parts).value.value, parts[FirstWild(parts)..k])
  {
    hide Matched, Base, ParsePart, Obstructed, FirstWild;
    assert parts[..k][FirstWild(parts)..k] == parts[FirstWild(parts)..k];
  }

  lemma ObstructedAt(entries: Entries, base: Path, parts: seq<string>, j: nat, q: Path)
    requires Parses(parts) && 0 < j < |parts| && Parses(parts[..j])
    requires q in Matched(entries, base, parts[..j]) && IsModule(entries, q)
    ensures Obstructed(entries, base, parts)
  {
    hide Matched, Parses, IsModule;
  }

  lemma EnterFails(entries: Entries, path: Path)
    requires Enter(entries, path).Failed?
    ensures match Enter(entries, path).failure
            case ModuleNeeded(module_) => IsModule(entries, module_)
            case Unresolved => true
            case _ => false
  {
    hide Walk;
    if Walk(entries, [], path, 0).NeedsModule? {
      NeedsLiveModule(entries, [], path, 0);
    }
  }

  lemma {:induction false} ExplicitFails(entries: Entries, parts: seq<string>, k: nat, n: nat, failure: Failure)
    requires k <= n <= |parts| && Explicit(entries, parts[..k]) == Failed(failure)
    ensures Explicit(entries, parts[..n]) == Failed(failure)
  {
    hide Enter;
    if k < n {
      ExplicitFails(entries, parts, k, n - 1, failure);
      SliceTwice(parts, n - 1, n);
    }
  }

  lemma WalkedStep(entries: Entries, parts: seq<string>, k: nat, paths: seq<Path>, tokens: seq<Token>, next: seq<Path>)
    requires k < |parts| && Walked(entries, parts, k, paths) && ParsePart(parts[k]) == Some(tokens)
    requires forall path <- paths :: Current(entries, path, k > FirstWild(parts)).Done?
    requires forall q :: q in next <==> exists path <- paths :: Continues(entries, path, parts[k], tokens, k > FirstWild(parts), q)
    requires Distinct(next) && Ascending(PathLess, Sort(PathLess, next)) && forall q :: q in Sort(PathLess, next) <==> q in next
    ensures Walked(entries, parts, k + 1, Sort(PathLess, next)) && Distinct(Sort(PathLess, next))
  {
    hide Match, ParsePart, Wild, Sort, Current, Continues, Matched, Obstructed, Explicit, Base, PathLess, FirstWild, Parses, Walked, Ascending;
    var n := FirstWild(parts);
    AscendingDistinct(Sort(PathLess, next));
    ParsesNext(entries, parts, k, paths);
    if k < n {
      ExplicitStep(entries, parts, k, paths, tokens, next);
      WalkedExplicit(entries, parts, k + 1, Sort(PathLess, next));
    } else if k == n {
      FirstStep(entries, parts, paths, tokens, next);
      SliceOn(parts, n, n);
      var base := Base(entries, parts).value;
      OnePart(entries, if base.Some? then base.value else [], parts[n]);
      WalkedOn(entries, parts, n + 1, [parts[n]], Sort(PathLess, next));
    } else {
      LaterStep(entries, parts, k, paths, tokens, next);
      SliceOn(parts, n, k);
      WalkedOn(entries, parts, k + 1, parts[n..k] + [parts[k]], Sort(PathLess, next));
    }
  }

  lemma ParsesNext(entries: Entries, parts: seq<string>, k: nat, paths: seq<Path>)
    requires k < |parts| && Walked(entries, parts, k, paths) && ParsePart(parts[k]).Some?
    ensures Parses(parts[..k + 1])
  {
    hide ParsePart, Matched, Obstructed, Explicit, Base, FirstWild;
    assert parts[..k + 1] == parts[..k] + [parts[k]];
  }

  // The state of the walk after one more component, before, at and after the first wildcard.

  lemma WalkedExplicit(entries: Entries, parts: seq<string>, k: nat, paths: seq<Path>)
    requires k <= FirstWild(parts) && Parses(parts[..k])
    requires match Explicit(entries, parts[..k])
             case Failed(_) => false
             case Done(None) => paths == []
             case Done(Some(path)) => paths == [path]
    ensures Walked(entries, parts, k, paths)
  {
    hide Explicit, FirstWild, Parses, Base, Matched, Obstructed;
  }

  lemma WalkedOn(entries: Entries, parts: seq<string>, k: nat, tail: seq<string>, paths: seq<Path>)
    requires FirstWild(parts) < k <= |parts| && tail == parts[FirstWild(parts)..k]
    requires Parses(parts[..k]) && Parses(tail) && Ascending(PathLess, paths)
    requires match Base(entries, parts)
             case Failed(_) => false
             case Done(None) => paths == []
             case Done(Some(base)) =>
               !Obstructed(entries, base, tail) && forall q :: q in paths <==> q in Matched(entries, base, tail)
    ensures Walked(entries, parts, k, paths)
  {
    hide FirstWild, Parses, Base, Matched, Obstructed, Ascending, Explicit;
  }

  lemma OnePart(entries: Entries, base: Path, part: string)
    requires ParsePart(part).Some?
    ensures Parses([part]) && !Obstructed(entries, base, [part])
  {
    hide ParsePart, Matched;
  }

  lemma SliceOn(parts: seq<string>, n: nat, k: nat)
    requires n <= k < |parts|
    ensures parts[n..k + 1] == parts[n..k] + [parts[k]]
  {
  }

  lemma AscendingDistinct(paths: seq<Path>)
    requires Ascending(PathLess, paths)
    ensures Distinct(paths)
  {
    PathOrder();
  }

  lemma ExplicitStep(entries: Entries, parts: seq<string>, k: nat, paths: seq<Path>, tokens: seq<Token>, next: seq<Path>)
    requires k < FirstWild(parts) && Walked(entries, parts, k, paths)
    requires forall path <- paths :: Current(entries, path, false).Done?
    requires Distinct(next)
    requires forall q :: q in next <==> exists path <- paths :: Continues(entries, path, parts[k], tokens, false, q)
    ensures match Explicit(entries, parts[..k + 1])
            case Failed(_) => false
            case Done(None) => Sort(PathLess, next) == []
            case Done(Some(path)) => Sort(PathLess, next) == [path]
  {
    hide Enter, Walk;
    assert parts[..k + 1][..k] == parts[..k] && parts[..k + 1][k] == parts[k];
    match Explicit(entries, parts[..k])
    case Done(Some(path)) =>
      assert path in paths;
      var entered := Enter(entries, path).value;
      if entered.Some? {
        Singleton(next, entered.value + [EncodeAll(parts[k])]);
      } else {
        Empty(next);
      }
    case Done(None) =>
      Empty(next);
  }

  lemma Singleton(next: seq<Path>, only: Path)
    requires Distinct(next) && forall q :: q in next <==> q == only
    ensures Sort(PathLess, next) == [only]
  {
    assert only in next;
    assert forall i | 0 <= i < |next| :: next[i] in next;
    HeadsDiffer(next);
    assert next == [only];
    assert next[1..] == [];
  }

  lemma Empty(next: seq<Path>)
    requires forall q :: q !in next
    ensures Sort(PathLess, next) == []
  {
    HeadIn(next);
  }

  lemma HeadsDiffer(next: seq<Path>)
    requires Distinct(next)
    ensures |next| < 2 || next[0] != next[1]
  {
  }

  lemma HeadIn(next: seq<Path>)
    ensures next == [] || next[0] in next
  {
  }

  lemma FirstStep(entries: Entries, parts: seq<string>, paths: seq<Path>, tokens: seq<Token>, next: seq<Path>)
    requires var n := FirstWild(parts); n < |parts| && ParsePart(parts[n]) == Some(tokens)
    requires Walked(entries, parts, FirstWild(parts), paths)
    requires forall path <- paths :: Current(entries, path, false).Done?
    requires forall q :: q in next <==>
               exists path <- paths :: Continues(entries, path, parts[FirstWild(parts)], tokens, false, q)
    ensures match Base(entries, parts)
            case Failed(_) => false
            case Done(None) => Sort(PathLess, next) == []
            case Done(Some(base)) => forall q :: q in next <==> q in Matched(entries, base, [parts[FirstWild(parts)]])
  {
    hide Enter, Match, ParsePart, Matched;
    var n := FirstWild(parts);
    match Explicit(entries, parts[..n])
    case Done(Some(path)) =>
      assert path in paths;
      var entered := Enter(entries, path).value;
      if entered.Some? {
        forall q
          ensures q in next <==> q in Matched(entries, entered.value, [parts[n]])
        {
          MatchedFirst(entries, entered.value, parts[n], q);
        }
      } else {
        Empty(next);
      }
    case Done(None) =>
      Empty(next);
  }

  lemma NoObstruction(entries: Entries, base: Path, parts: seq<string>, part: string, paths: seq<Path>)
    requires Parses(parts + [part]) && Parses(parts) && !Obstructed(entries, base, parts)
    requires forall q :: q in paths <==> q in Matched(entries, base, parts)
    requires forall path <- paths :: Current(entries, path, true).Done?
    ensures !Obstructed(entries, base, parts + [part])
  {
    hide Matched, ParsePart;
    forall j, q | 0 < j <= |parts| && q in Matched(entries, base, (parts + [part])[..j])
      ensures !IsModule(entries, q)
    {
      assert (parts + [part])[..j] == parts[..j];
      if j == |parts| {
        assert parts[..j] == parts;
      }
    }
  }

  lemma LaterStep(entries: Entries, parts: seq<string>, k: nat, paths: seq<Path>, tokens: seq<Token>, next: seq<Path>)
    requires FirstWild(parts) < k < |parts| && Walked(entries, parts, k, paths) && ParsePart(parts[k]) == Some(tokens)
    requires forall path <- paths :: Current(entries, path, true).Done?
    requires forall q :: q in next <==> exists path <- paths :: Continues(entries, path, parts[k], tokens, true, q)
    ensures Parses(parts[FirstWild(parts)..k] + [parts[k]])
    ensures match Base(entries, parts)
            case Failed(_) => false
            case Done(None) => Sort(PathLess, next) == []
            case Done(Some(base)) =>
              && !Obstructed(entries, base, parts[FirstWild(parts)..k] + [parts[k]])
              && forall q :: q in next <==> q in Matched(entries, base, parts[FirstWild(parts)..k] + [parts[k]])
  {
    hide Enter, Match, ParsePart, Matched, Base;
    var n := FirstWild(parts);
    assert parts[..k][n..k] == parts[n..k];
    match Base(entries, parts)
    case Done(Some(base)) =>
      NoObstruction(entries, base, parts[n..k], parts[k], paths);
      hide Obstructed;
      forall q
        ensures q in next <==> q in Matched(entries, base, parts[n..k] + [parts[k]])
      {
        MatchedNext(entries, base, parts[n..k], parts[k], q);
        if q in Matched(entries, base, parts[n..k] + [parts[k]]) {
          assert Continues(entries, q[..|q| - 1], parts[k], tokens, true, q);
        }
        if q in next {
          var path :| path in paths && Continues(entries, path, parts[k], tokens, true, q);
          assert path == q[..|q| - 1];
        }
      }
    case Done(None) =>
      Empty(next);
  }
}
