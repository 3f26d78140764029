/**
  Making COPY sources selectable: expand the module that is in the way and
  select again, for one directive after the other.
  */
module Preparation {
  import opened Wrappers
  import opened Orders
  import opened Paths
  import opened Resolver
  import opened Context
  import opened Selection
  import opened Sources
  import opened ExplicitPaths
  import opened Stability

  datatype Preparation =
    | Prepared
    | ExpansionFailed(at: Path)
    | Unselected(failure: Failure)

  ghost predicate Selectable(entries: Entries, patterns: seq<string>) {
    exists sources :: Selected(entries, patterns, sources)
  }

  /** The patterns were given up at a module that they need and that cannot be expanded. */
  ghost predicate GivenUp(modules: Opener, entries: Entries, stores: seq<Store>, patterns: seq<string>, at: Path) {
    Stuck(modules, entries, stores, at, (e: Entries) => NeededByAny(e, patterns, at))
  }

  /** The key enumeration of the ordered map. */
  method Enumerate(entries: Entries) returns (index: Index)
    ensures index.entries == entries && index.Valid()
  {
    hide PathLess, Sort;
    var keys: seq<Path>, rest := [], entries.Keys;
    while rest != {}
      invariant Distinct(keys) && rest <= entries.Keys
      invariant forall q :: q in keys <==> q in entries && q !in rest
      decreases |rest|
    {
      var q :| q in rest;
      keys, rest := keys + [q], rest - {q};
    }
    PathOrder();
    SortAscending(PathLess, keys);
    return Index(entries, Sort(PathLess, keys));
  }

  /** Unexpanded modules at one depth of a valid context. */
  ghost function Count(context: CapturedContext, depth: nat): nat
    requires context.Valid()
    reads context
  {
    Census(context.entries, context.stores, depth)
  }

  /**
    Select, expand the module that is in the way, and select again. Every
    expansion lowers the counts of unexpanded modules per depth, so this ends:
    with a context in which selection succeeds, or cannot for another reason, or
    at a module that selection needs and that cannot be expanded.
    */
  method Prepare(context: CapturedContext, patterns: seq<string>) returns (outcome: Preparation)
    requires context.Valid()
    modifies context
    ensures !outcome.ExpansionFailed? ==>
              && context.Valid()
              && Reaches(context.modules, old(context.entries), old(context.stores), context.entries, context.stores)
    ensures outcome.Prepared? ==> Selectable(context.entries, patterns)
    ensures outcome.Unselected? ==> !outcome.failure.ModuleNeeded? && !Selectable(context.entries, patterns)
    ensures outcome.ExpansionFailed? ==>
              GivenUp(context.modules, old(context.entries), old(context.stores), patterns, outcome.at)
    ensures (forall q <- old(context.entries) :: !old(context.entries)[q].Module?) ==>
              !outcome.ExpansionFailed? && context.entries == old(context.entries)
  {
    hide Selected, Consistent, PathLess, Census, Expanded, Reaches, GivenUp, NeededByAny;
    ReachesItself(context.modules, context.entries, context.stores);
    while true
      invariant context.Valid()
      invariant Reaches(context.modules, old(context.entries), old(context.stores), context.entries, context.stores)
      invariant (forall q <- old(context.entries) :: !old(context.entries)[q].Module?) ==>
                  context.entries == old(context.entries)
      decreases Count(context, 0), Count(context, 1), Count(context, 2), Count(context, 3),
                Count(context, 4), Count(context, 5), Count(context, 6), Count(context, 7)
    {
      var index := Enumerate(context.entries);
      var selected := SelectSources(index, patterns);
      match selected {
        case Done(sources) => return Prepared;
        case Failed(ModuleNeeded(path)) =>
          ghost var before, stores := context.entries, context.stores;
          NeededIsModule(before, patterns, path);
          var ok := context.Expand(path);
          if !ok {
            GivingUp(context.modules, old(context.entries), old(context.stores), patterns, before, stores, path);
            return ExpansionFailed(path);
          }
          ExpandedCensus(before, stores, context.modules, path, context.entries, context.stores);
          ReachesNext(context.modules, old(context.entries), old(context.stores), before, stores, path,
                      context.entries, context.stores);
        case Failed(failure) => return Unselected(failure);
      }
    }
  }

  lemma GivingUp(modules: Opener, entries: Entries, stores: seq<Store>, patterns: seq<string>,
                 middle: Entries, known: seq<Store>, at: Path)
    requires Reaches(modules, entries, stores, middle, known) && NeededByAny(middle, patterns, at)
    requires forall after, grown :: !Expanded(middle, known, modules, at, after, grown)
    ensures GivenUp(modules, entries, stores, patterns, at)
  {
    hide Reaches, Expanded, Expansion, NeededByAny;
    NeededIsModule(middle, patterns, at);
    CannotExpand(modules, middle, known, at);
    assert StuckAt(modules, entries, stores, at, (e: Entries) => NeededByAny(e, patterns, at), middle, known);
  }

  /**
    Prepare every local COPY directive in turn. Preparing a later one expands
    more modules and keeps the earlier ones selectable, so in the end all are.
    */
  method PrepareAll(context: CapturedContext, directives: seq<seq<string>>) returns (outcome: Preparation)
    requires context.Valid() && PlainEntries(context.entries)
    modifies context
    ensures !outcome.ExpansionFailed? ==>
              && context.Valid()
              && Reaches(context.modules, old(context.entries), old(context.stores), context.entries, context.stores)
    ensures outcome.Prepared? ==> forall patterns <- directives :: Selectable(context.entries, patterns)
    ensures outcome.Unselected? ==> exists patterns <- directives :: !Selectable(context.entries, patterns)
    ensures outcome.ExpansionFailed? ==>
              exists patterns <- directives ::
                GivenUp(context.modules, old(context.entries), old(context.stores), patterns, outcome.at)
  {
    hide Consistent, PlainEntries, Reaches, Selectable, GivenUp;
    ReachesItself(context.modules, context.entries, context.stores);
    for i := 0 to |directives|
      invariant context.Valid() && PlainEntries(context.entries)
      invariant Reaches(context.modules, old(context.entries), old(context.stores), context.entries, context.stores)
      invariant forall patterns <- directives[..i] :: Selectable(context.entries, patterns)
    {
      ghost var before, stores := context.entries, context.stores;
      assert directives[i] in directives && directives[..i + 1] == directives[..i] + [directives[i]];
      outcome := Prepare(context, directives[i]);
      if outcome.ExpansionFailed? {
        GivenUpFurther(context.modules, old(context.entries), old(context.stores), before, stores, directives[i], outcome.at);
        return;
      }
      ReachesTransitive(context.modules, old(context.entries), old(context.stores), before, stores,
                        context.entries, context.stores);
      if outcome.Unselected? {
        return;
      }
      ReachesPlain(context.modules, before, stores, context.entries, context.stores);
      forall patterns | patterns in directives[..i]
        ensures Selectable(context.entries, patterns)
      {
        SelectableStays(context.modules, before, stores, context.entries, context.stores, patterns);
      }
    }
    assert directives[..|directives|] == directives;
    return Prepared;
  }

  lemma GivenUpFurther(modules: Opener, entries: Entries, stores: seq<Store>, middle: Entries, known: seq<Store>,
                       patterns: seq<string>, at: Path)
    requires Reaches(modules, entries, stores, middle, known) && GivenUp(modules, middle, known, patterns, at)
    ensures GivenUp(modules, entries, stores, patterns, at)
  {
    hide Reaches, Stuck, NeededByAny;
    StuckFurther(modules, entries, stores, middle, known, at, (e: Entries) => NeededByAny(e, patterns, at));
  }

  lemma SelectableStays(modules: Opener, entries: Entries, stores: seq<Store>, after: Entries, grown: seq<Store>,
                        patterns: seq<string>)
    requires Consistent(entries, stores) && PlainEntries(entries) && Selectable(entries, patterns)
    requires Reaches(modules, entries, stores, after, grown)
    ensures Selectable(after, patterns)
  {
    hide Selected, Consistent, PlainEntries, Reaches;
    var sources :| Selected(entries, patterns, sources);
    SelectedStays(modules, entries, stores, after, grown, patterns, sources);
  }

  /**
    Preparation gives up only where it has to: from a context it had reached, no
    further expansion makes the patterns selectable.
    */
  lemma GivenUpForGood(modules: Opener, entries: Entries, stores: seq<Store>, patterns: seq<string>, at: Path)
    returns (middle: Entries, known: seq<Store>)
    requires Consistent(entries, stores) && PlainEntries(entries) && GivenUp(modules, entries, stores, patterns, at)
    ensures Reaches(modules, entries, stores, middle, known)
    ensures forall after, grown | Reaches(modules, middle, known, after, grown) :: !Selectable(after, patterns)
  {
    hide Consistent, PlainEntries, Reaches, Expansion, NeededByAny, Selected, Widens;
    middle, known :| StuckAt(modules, entries, stores, at, (e: Entries) => NeededByAny(e, patterns, at), middle, known);
    ReachesWidens(modules, entries, stores, middle, known);
    ReachesPlain(modules, entries, stores, middle, known);
    forall after, grown, sources | Reaches(modules, middle, known, after, grown)
      ensures !Selected(after, patterns, sources)
    {
      StuckForGood(modules, middle, known, patterns, at, after, grown, sources);
    }
  }
}
