/**
  Ordering the stages of a plan: an iterative depth-first walk with exit markers,
  against its recursive form, and what its result means.
  */
module Planner {
  import opened Wrappers
  import opened Strings
  import opened Orders
  import opened Plans

  type Stages = map<string, Stage>

  // ---- Dependencies ----

  /** The stages that a stage is built from: its input and the sources of its COPY directives. */
  function Dependencies(stage: Stage): set<string> {
    (if stage.from.Local? then {stage.from.stage} else {}) + CopySources(stage.derive)
  }

  function CopySources(derive: seq<Directive>): set<string> {
    set directive | directive in derive && directive.CopyFrom? :: directive.stage
  }

  /** The iteration order of an ordered set. */
  ghost function InOrder(names: set<string>): (sorted: seq<string>)
    ensures forall name :: name in sorted <==> name in names
  {
    StringOrder();
    Sorted(StringLess, names)
  }

  method Enumerate(names: set<string>) returns (sorted: seq<string>)
    ensures sorted == InOrder(names)
  {
    hide StringLess, Sort, Sorted;
    var listed: seq<string>, rest := [], names;
    while rest != {}
      invariant Distinct(listed) && rest <= names
      invariant forall name :: name in listed <==> name in names && name !in rest
      decreases |rest|
    {
      var name :| name in rest;
      listed, rest := listed + [name], rest - {name};
    }
    StringOrder();
    SortAscending(StringLess, listed);
    sorted := Sort(StringLess, listed);
    SortedUnique(StringLess, sorted, InOrder(names));
  }

  method DependenciesOf(stage: Stage) returns (names: set<string>)
    ensures names == Dependencies(stage)
  {
    names := {};
    if stage.from.Local? {
      names := names + {stage.from.stage};
    }
    ghost var first := names;
    for i := 0 to |stage.derive|
      invariant names == first + CopySources(stage.derive[..i])
    {
      var directive := stage.derive[i];
      assert stage.derive[..i + 1] == stage.derive[..i] + [directive];
      if directive.CopyFrom? {
        names := names + {directive.stage};
      }
    }
    assert stage.derive[..|stage.derive|] == stage.derive;
  }

  // ---- The recursive form ----

  /**
    The stages to build, in order, once `names` are added to those of `known`:
    dependencies first. Nothing for an unknown stage, or for one on whose behalf
    the walk is already under way.
    */
  ghost function Visit(stages: Stages, names: seq<string>, visiting: set<string>, known: seq<string>): Option<seq<string>>
    decreases |stages.Keys - visiting|, |names|
  {
    if names == [] then Some(known)
    else
      var first := names[0];
      var more :- (
        if first in known then Some(known)
        else if first !in stages || first in visiting then None
        else
          assert stages.Keys - (visiting + {first}) < stages.Keys - visiting by { Fewer(stages, visiting, first); }
          assert |stages.Keys - (visiting + {first})| < |stages.Keys - visiting| by { Fewer(stages, visiting, first); }
          var inner :- Visit(stages, InOrder(Dependencies(stages[first])), visiting + {first}, known);
          Some(inner + [first]));
      Visit(stages, names[1..], visiting, more)
  }

  lemma Fewer(stages: Stages, visiting: set<string>, name: string)
    requires name in stages && name !in visiting
    ensures stages.Keys - (visiting + {name}) < stages.Keys - visiting
    ensures |stages.Keys - (visiting + {name})| < |stages.Keys - visiting|
  {
    assert stages.Keys - visiting == (stages.Keys - (visiting + {name})) + {name};
  }

  // ---- The iterative walk refines it ----

  /** An entry of the stack: a stage to enter, or to leave once what is above it is done. */
  datatype Frame = Frame(name: string, exit: bool)

  /** What the walk makes of its stack, from the top down. */
  ghost function Continue(stages: Stages, stack: seq<Frame>, visiting: set<string>, known: seq<string>): Option<seq<string>> {
    if stack == [] then Some(known)
    else
      var top, rest := stack[|stack| - 1], stack[..|stack| - 1];
      if top.exit then Continue(stages, rest, visiting - {top.name}, known + [top.name])
      else
        var more :- Visit(stages, [top.name], visiting, known);
        Continue(stages, rest, visiting, more)
  }

  function Entering(names: seq<string>): seq<Frame> {
    if names == [] then [] else Entering(names[1..]) + [Frame(names[0], false)]
  }

  /** Stages stacked in reverse are visited one after the other. */
  lemma {:induction false} ContinueEntering(stages: Stages, stack: seq<Frame>, names: seq<string>, visiting: set<string>,
                                            known: seq<string>)
    ensures Continue(stages, stack + Entering(names), visiting, known) ==
            match Visit(stages, names, visiting, known)
            case None => None
            case Some(more) => Continue(stages, stack, visiting, more)
    decreases |names|
  {
    hide Visit;
    if names == [] {
      assert stack + Entering(names) == stack;
      VisitNothing(stages, visiting, known);
    } else {
      var all := stack + Entering(names);
      assert all[|all| - 1] == Frame(names[0], false) && all[..|all| - 1] == stack + Entering(names[1..]);
      VisitFirst(stages, names, visiting, known);
      var more := Visit(stages, [names[0]], visiting, known);
      if more.Some? {
        ContinueEntering(stages, stack, names[1..], visiting, more.value);
      }
    }
  }

  lemma VisitNothing(stages: Stages, visiting: set<string>, known: seq<string>)
    ensures Visit(stages, [], visiting, known) == Some(known)
  {
  }

  lemma VisitFirst(stages: Stages, names: seq<string>, visiting: set<string>, known: seq<string>)
    requires names != []
    ensures Visit(stages, names, visiting, known) ==
            match Visit(stages, [names[0]], visiting, known)
            case None => None
            case Some(more) => Visit(stages, names[1..], visiting, more)
  {
    hide InOrder, Dependencies;
    assert [names[0]][1..] == [];
  }

  /** Entering a stage: its dependencies, then itself. */
  lemma ContinueEnter(stages: Stages, rest: seq<Frame>, name: string, visiting: set<string>, known: seq<string>)
    requires name in stages && name !in visiting && name !in known
    ensures Continue(stages, rest + [Frame(name, true)] + Entering(InOrder(Dependencies(stages[name]))), visiting + {name}, known) ==
            Continue(stages, rest + [Frame(name, false)], visiting, known)
  {
    hide Dependencies, InOrder;
    var names := InOrder(Dependencies(stages[name]));
    var left, entered := rest + [Frame(name, true)], rest + [Frame(name, false)];
    ContinueEntering(stages, left, names, visiting + {name}, known);
    assert left[..|left| - 1] == rest && entered[..|entered| - 1] == rest;
    assert visiting + {name} - {name} == visiting;
    VisitOne(stages, name, visiting, known);
    hide Visit, Entering;
  }

  lemma VisitOne(stages: Stages, name: string, visiting: set<string>, known: seq<string>)
    requires name in stages && name !in visiting && name !in known
    ensures Visit(stages, [name], visiting, known) ==
            match Visit(stages, InOrder(Dependencies(stages[name])), visiting + {name}, known)
            case None => None
            case Some(inner) => Some(inner + [name])
  {
    hide Dependencies, InOrder;
    assert [name][1..] == [];
    Fewer(stages, visiting, name);
  }

  lemma ContinueStart(stages: Stages, start: string, known: seq<string>)
    ensures Continue(stages, [Frame(start, false)], {}, known) == Visit(stages, [start], {}, known)
    ensures OnStack([Frame(start, false)], {})
  {
    hide Visit;
    assert [Frame(start, false)][..0] == [];
  }

  /** The top of the stack, when there is nothing to enter. */
  lemma ContinuePop(stages: Stages, rest: seq<Frame>, top: Frame, visiting: set<string>, known: seq<string>)
    ensures
      var continued := Continue(stages, rest + [top], visiting, known);
      if top.exit then continued == Continue(stages, rest, visiting - {top.name}, known + [top.name])
      else if top.name in known then continued == Continue(stages, rest, visiting, known)
      else top.name !in stages || top.name in visiting ==> continued == None
    ensures OnStack(rest + [top], visiting) <==>
              if top.exit then top.name in visiting && OnStack(rest, visiting - {top.name}) else OnStack(rest, visiting)
  {
    VisitAtOnce(stages, top.name, visiting, known);
    hide Visit;
    var stack := rest + [top];
    assert stack[|stack| - 1] == top && stack[..|stack| - 1] == rest;
  }

  /** A stage that is there already, or cannot be visited. */
  lemma VisitAtOnce(stages: Stages, name: string, visiting: set<string>, known: seq<string>)
    ensures name in known ==> Visit(stages, [name], visiting, known) == Some(known)
    ensures name !in known && (name !in stages || name in visiting) ==> Visit(stages, [name], visiting, known) == None
  {
    hide Dependencies, InOrder;
    VisitNothing(stages, visiting, known);
    assert [name][0] == name && [name][1..] == [];
  }

  /** The stages being visited are those with an exit marker on the stack, each with one. */
  ghost predicate OnStack(stack: seq<Frame>, visiting: set<string>) {
    if stack == [] then visiting == {}
    else
      var top, rest := stack[|stack| - 1], stack[..|stack| - 1];
      if top.exit then top.name in visiting && OnStack(rest, visiting - {top.name}) else OnStack(rest, visiting)
  }

  lemma {:induction false} OnStackEntering(stack: seq<Frame>, names: seq<string>, visiting: set<string>)
    ensures OnStack(stack + Entering(names), visiting) <==> OnStack(stack, visiting)
    decreases |names|
  {
    if names == [] {
      assert stack + Entering(names) == stack;
    } else {
      var all := stack + Entering(names);
      assert all[|all| - 1] == Frame(names[0], false) && all[..|all| - 1] == stack + Entering(names[1..]);
      OnStackEntering(stack, names[1..], visiting);
    }
  }

  lemma OnStackEnter(rest: seq<Frame>, name: string, names: seq<string>, visiting: set<string>)
    requires OnStack(rest, visiting) && name !in visiting
    ensures OnStack(rest + [Frame(name, true)] + Entering(names), visiting + {name})
  {
    var left := rest + [Frame(name, true)];
    OnStackEntering(left, names, visiting + {name});
    assert left[..|left| - 1] == rest;
    assert visiting + {name} - {name} == visiting;
  }

  /** Stack stages so that the first one comes out first. */
  method PushAll(base: seq<Frame>, names: seq<string>) returns (stack: seq<Frame>)
    ensures stack == base + Entering(names)
  {
    stack := base;
    for i := |names| downto 0
      invariant stack == base + Entering(names[i..])
    {
      stack := stack + [Frame(names[i], false)];
      assert names[i..][1..] == names[i + 1..];
    }
    assert names[0..] == names;
  }

  lemma FewerLeft(stages: Stages, done: set<string>, visiting: set<string>, name: string)
    requires name in stages && name !in visiting && name !in done
    ensures |stages.Keys - done - (visiting + {name})| < |stages.Keys - done - visiting|
  {
    assert stages.Keys - done - visiting == (stages.Keys - done - (visiting + {name})) + {name};
  }

  lemma TopMoved(stack: seq<Frame>)
    requires stack != []
    ensures stack[..|stack| - 1] + [stack[|stack| - 1]] == stack
  {
  }

  lemma SameLeft(stages: Stages, done: set<string>, visiting: set<string>, name: string)
    requires name in visiting
    ensures stages.Keys - (done + {name}) - (visiting - {name}) == stages.Keys - done - visiting
  {
  }

  /** Replace a stage on the stack by its exit marker and, above it, its dependencies. */
  method Enter(stages: Stages, rest: seq<Frame>, name: string, ghost visiting: set<string>, ghost known: seq<string>)
    returns (stack: seq<Frame>)
    requires name in stages && name !in visiting && name !in known && OnStack(rest, visiting)
    ensures OnStack(stack, visiting + {name})
    ensures Continue(stages, stack, visiting + {name}, known) == Continue(stages, rest + [Frame(name, false)], visiting, known)
  {
    hide Visit, Continue, OnStack, Dependencies, InOrder;
    var names := DependenciesOf(stages[name]);
    var dependencies := Enumerate(names);
    ContinueEnter(stages, rest, name, visiting, known);
    OnStackEnter(rest, name, dependencies, visiting);
    stack := PushAll(rest + [Frame(name, true)], dependencies);
  }

  /**
    The walk from one stage. `done` and `order` are extended together, but a
    caller may keep the one and drop the other; `known` is what `done` stands for.
    */
  method Walk(stages: Stages, start: string, done: set<string>, order: seq<string>, ghost known: seq<string>)
    returns (walked: Option<(set<string>, seq<string>)>, ghost added: seq<string>)
    requires forall name :: name in done <==> name in known
    ensures walked.None? ==> Visit(stages, [start], {}, known) == None
    ensures walked.Some? ==>
              && Visit(stages, [start], {}, known) == Some(known + added)
              && walked.value.1 == order + added
              && forall name :: name in walked.value.0 <==> name in known + added
  {
    hide Visit, Continue, OnStack, Dependencies, InOrder;
    var finished, sequence, visiting: set<string>, stack := done, order, {}, [Frame(start, false)];
    ghost var found := known;
    added := [];
    ContinueStart(stages, start, known);
    while stack != []
      invariant found == known + added && sequence == order + added
      invariant forall name :: name in finished <==> name in found
      invariant Continue(stages, stack, visiting, found) == Visit(stages, [start], {}, known)
      invariant OnStack(stack, visiting) && visiting !! finished
      decreases |stages.Keys - finished - visiting|, |stack|
    {
      var top := stack[|stack| - 1];
      TopMoved(stack);
      stack := stack[..|stack| - 1];
      ContinuePop(stages, stack, top, visiting, found);
      if top.exit {
        SameLeft(stages, finished, visiting, top.name);
        visiting := visiting - {top.name};
        finished := finished + {top.name};
        sequence := sequence + [top.name];
        Assoc(order, added, [top.name]);
        Assoc(known, added, [top.name]);
        added, found := added + [top.name], found + [top.name];
        continue;
      }
      if top.name in finished {
        continue;
      }
      if top.name !in stages || top.name in visiting {
        return None, [];
      }
      FewerLeft(stages, finished, visiting, top.name);
      stack := Enter(stages, stack, top.name, visiting, found);
      visiting := visiting + {top.name};
    }
    ContinueEnd(stages, visiting, found);
    return Some((finished, sequence)), added;
  }

  lemma ContinueEnd(stages: Stages, visiting: set<string>, known: seq<string>)
    ensures Continue(stages, [], visiting, known) == Some(known)
  {
  }

  // ---- Reachability ----

  /** A path along dependencies. */
  ghost predicate Leads(stages: Stages, path: seq<string>) {
    && path != []
    && forall i | 0 <= i < |path| - 1 :: path[i] in stages && path[i + 1] in Dependencies(stages[path[i]])
  }

  ghost predicate Reachable(stages: Stages, from: string, to: string) {
    exists path: seq<string> :: Leads(stages, path) && path[0] == from && path[|path| - 1] == to
  }

  /** Does a stage depend on itself? */
  ghost predicate Cyclic(stages: Stages, name: string) {
    name in stages && exists next <- Dependencies(stages[name]) :: Reachable(stages, next, name)
  }

  lemma ReachableItself(stages: Stages, name: string)
    ensures Reachable(stages, name, name)
  {
    hide Dependencies;
    assert Leads(stages, [name]) && [name][0] == name;
  }

  lemma ReachableBefore(stages: Stages, name: string, next: string, to: string)
    requires name in stages && next in Dependencies(stages[name]) && Reachable(stages, next, to)
    ensures Reachable(stages, name, to)
  {
    hide Dependencies;
    var path :| Leads(stages, path) && path[0] == next && path[|path| - 1] == to;
    var longer := [name] + path;
    forall i | 0 <= i < |longer| - 1
      ensures longer[i] in stages && longer[i + 1] in Dependencies(stages[longer[i]])
    {
      if i > 0 {
        assert longer[i] == path[i - 1] && longer[i + 1] == path[i];
      }
    }
    assert Leads(stages, longer) && longer[0] == name && longer[|longer| - 1] == to;
  }

  // ---- Dependencies come first ----

  /** Declared stages, none twice, and each after everything it depends on. */
  ghost predicate DependenciesFirst(stages: Stages, order: seq<string>) {
    && Distinct(order)
    && forall i | 0 <= i < |order| :: order[i] in stages && forall name <- Dependencies(stages[order[i]]) :: name in order[..i]
  }

  lemma FirstAppend(stages: Stages, order: seq<string>, name: string)
    requires DependenciesFirst(stages, order) && name in stages && name !in order
    requires forall other <- Dependencies(stages[name]) :: other in order
    ensures DependenciesFirst(stages, order + [name])
  {
    hide Dependencies;
    var longer := order + [name];
    assert forall i | 0 <= i <= |order| :: longer[..i] == order[..i];
    assert order[..|order|] == order;
  }

  /** A visit adds the given stages and what they depend on, dependencies first. */
  lemma {:induction false} VisitOrders(stages: Stages, names: seq<string>, visiting: set<string>, known: seq<string>)
    requires DependenciesFirst(stages, known) && (forall name <- known :: name !in visiting)
    requires Visit(stages, names, visiting, known).Some?
    ensures
      var order := Visit(stages, names, visiting, known).value;
      && known <= order && DependenciesFirst(stages, order)
      && (forall name <- order :: name !in visiting)
      && (forall name <- names :: name in order)
    decreases |stages.Keys - visiting|, |names|
  {
    hide Dependencies, DependenciesFirst;
    if names != [] {
      var first, more := names[0], known;
      if first !in known {
        Fewer(stages, visiting, first);
        var below := InOrder(Dependencies(stages[first]));
        VisitOrders(stages, below, visiting + {first}, known);
        var inner := Visit(stages, below, visiting + {first}, known).value;
        FirstAppend(stages, inner, first);
        more := inner + [first];
      }
      assert first in more;
      VisitOrders(stages, names[1..], visiting, more);
      assert forall name <- names :: name == first || name in names[1..];
    }
  }

  /** A visit adds only what the given stages need. */
  lemma {:induction false} VisitNeeded(stages: Stages, names: seq<string>, visiting: set<string>, known: seq<string>,
                                       to: string) returns (from: string)
    requires Visit(stages, names, visiting, known).Some?
    requires to in Visit(stages, names, visiting, known).value && to !in known
    ensures from in names && Reachable(stages, from, to)
    decreases |stages.Keys - visiting|, |names|
  {
    hide Dependencies, Reachable;
    var first, more := names[0], known;
    if first !in known {
      Fewer(stages, visiting, first);
      var below := InOrder(Dependencies(stages[first]));
      var inner := Visit(stages, below, visiting + {first}, known).value;
      more := inner + [first];
      if to == first {
        ReachableItself(stages, first);
        return first;
      }
      if to in inner {
        var next := VisitNeeded(stages, below, visiting + {first}, known, to);
        ReachableBefore(stages, first, next, to);
        return first;
      }
    }
    from := VisitNeeded(stages, names[1..], visiting, more, to);
  }

  /** A failed visit has come to an unknown stage, to one that depends on itself, or back to a visited one. */
  lemma {:induction false} VisitFails(stages: Stages, names: seq<string>, visiting: set<string>, known: seq<string>)
    returns (from: string, to: string)
    requires Visit(stages, names, visiting, known) == None
    ensures from in names && Reachable(stages, from, to)
    ensures to !in stages || to in visiting || Cyclic(stages, to)
    decreases |stages.Keys - visiting|, |names|
  {
    hide Dependencies, Reachable;
    var first, more := names[0], known;
    if first !in known {
      if first !in stages || first in visiting {
        ReachableItself(stages, first);
        return first, first;
      }
      Fewer(stages, visiting, first);
      var below := InOrder(Dependencies(stages[first]));
      var inner := Visit(stages, below, visiting + {first}, known);
      if inner == None {
        var next;
        next, to := VisitFails(stages, below, visiting + {first}, known);
        ReachableBefore(stages, first, next, to);
        return first, to;
      }
      more := inner.value + [first];
    }
    from, to := VisitFails(stages, names[1..], visiting, more);
  }

  /** Along dependencies, an order only goes back. */
  lemma {:induction false} OrderDescends(stages: Stages, order: seq<string>, path: seq<string>, k: nat) returns (j: nat)
    requires DependenciesFirst(stages, order) && Leads(stages, path) && k < |order| && path[0] == order[k]
    ensures j <= k && path[|path| - 1] == order[j] && (|path| > 1 ==> j < k)
    decreases |path|
  {
    hide Dependencies;
    if |path| == 1 {
      j := k;
    } else {
      assert path[1] in Dependencies(stages[path[0]]);
      assert path[1] in order[..k];
      var i: nat :| i < k && order[i] == path[1];
      var rest := path[1..];
      assert forall i | 0 <= i < |rest| :: rest[i] == path[i + 1];
      j := OrderDescends(stages, order, rest, i);
    }
  }

  /** So what an order reaches is in it, and depends on itself nowhere. */
  lemma OrderCloses(stages: Stages, order: seq<string>, from: string, to: string)
    requires DependenciesFirst(stages, order) && from in order && Reachable(stages, from, to)
    ensures to in order && to in stages && !Cyclic(stages, to)
  {
    hide Dependencies;
    var k: nat :| k < |order| && order[k] == from;
    var path :| Leads(stages, path) && path[0] == from && path[|path| - 1] == to;
    var j := OrderDescends(stages, order, path, k);
    if Cyclic(stages, to) {
      var next :| next in Dependencies(stages[to]) && Reachable(stages, next, to);
      assert next in order[..j];
      var i: nat :| i < j && order[i] == next;
      var back :| Leads(stages, back) && back[0] == next && back[|back| - 1] == to;
      var again := OrderDescends(stages, order, back, i);
    }
  }

  /** Nothing that these stages need is unknown or depends on itself. */
  ghost predicate Buildable(stages: Stages, names: seq<string>) {
    forall from, to | from in names && Reachable(stages, from, to) :: to in stages && !Cyclic(stages, to)
  }

  /** A visit succeeds exactly when everything needed is declared and free of cycles, and orders exactly that. */
  lemma VisitExactly(stages: Stages, names: seq<string>)
    ensures
      var visited := Visit(stages, names, {}, []);
      && (visited.Some? <==> Buildable(stages, names))
      && (visited.Some? ==>
            && DependenciesFirst(stages, visited.value)
            && forall name :: name in visited.value <==> exists from <- names :: Reachable(stages, from, name))
  {
    hide Visit, Dependencies, Reachable, Cyclic, DependenciesFirst;
    var visited := Visit(stages, names, {}, []);
    NothingFirst(stages);
    if visited == None {
      var from, to := VisitFails(stages, names, {}, []);
    } else {
      var order := visited.value;
      VisitOrders(stages, names, {}, []);
      forall from, to | from in names && Reachable(stages, from, to)
        ensures to in order && to in stages && !Cyclic(stages, to)
      {
        OrderCloses(stages, order, from, to);
      }
      forall name | name in order
        ensures exists from <- names :: Reachable(stages, from, name)
      {
        var from := VisitNeeded(stages, names, {}, [], name);
      }
    }
  }

  lemma NothingFirst(stages: Stages)
    ensures DependenciesFirst(stages, [])
  {
  }

  // ---- Whole plans ----

  /** The images an image is selected from. */
  function ImageSources(image: Image): seq<ImageRef> {
    match image
    case Whole(source) => [source]
    case Components(root, boot) =>
      (if root.Some? then [root.value] else []) + (if boot.Some? then [BootSource(boot.value)] else [])
  }

  function LocalNames(sources: seq<ImageRef>): seq<string> {
    if sources == [] then []
    else (if sources[0].Local? then [sources[0].stage] else []) + LocalNames(sources[1..])
  }

  /** The order of the stages to build; all declared ones are checked, needed or not. */
  ghost function Planned(stages: Stages, image: Image): Option<seq<string>> {
    if image == Components(None, None) then None
    else
      var checked :- Visit(stages, InOrder(stages.Keys), {}, []);
      Visit(stages, LocalNames(ImageSources(image)), {}, [])
  }

  method Order(stages: Stages, image: Image) returns (planned: Option<seq<string>>)
    ensures planned == Planned(stages, image)
  {
    hide Visit, InOrder;
    if image == Components(None, None) {
      return None;
    }
    var names := Enumerate(stages.Keys);
    var checked := CheckAll(stages, names);
    if !checked {
      return None;
    }
    planned := OrderSources(stages, ImageSources(image));
  }

  /** Walk all declared stages; their orders are dropped. */
  method CheckAll(stages: Stages, names: seq<string>) returns (ok: bool)
    ensures ok <==> Visit(stages, names, {}, []).Some?
  {
    hide Visit;
    var checked: set<string> := {};
    ghost var known: seq<string> := [];
    for i := 0 to |names|
      invariant forall name :: name in checked <==> name in known
      invariant Visit(stages, names, {}, []) == Visit(stages, names[i..], {}, known)
    {
      VisitFirst(stages, names[i..], {}, known);
      assert names[i..][1..] == names[i + 1..];
      ghost var added;
      var walked;
      walked, added := Walk(stages, names[i], checked, [], known);
      if walked == None {
        return false;
      }
      checked := walked.value.0;
      known := known + added;
    }
    VisitNothing(stages, {}, known);
    return true;
  }

  /** Walk the stages that the image names. */
  method OrderSources(stages: Stages, sources: seq<ImageRef>) returns (planned: Option<seq<string>>)
    ensures planned == Visit(stages, LocalNames(sources), {}, [])
  {
    hide Visit;
    var done: set<string>, order: seq<string> := {}, [];
    for i := 0 to |sources|
      invariant forall name :: name in done <==> name in order
      invariant Visit(stages, LocalNames(sources), {}, []) == Visit(stages, LocalNames(sources[i..]), {}, order)
    {
      assert sources[i..][1..] == sources[i + 1..];
      if sources[i].Local? {
        var names := LocalNames(sources[i..]);
        assert names[0] == sources[i].stage && names[1..] == LocalNames(sources[i + 1..]);
        VisitFirst(stages, names, {}, order);
        ghost var added;
        var walked;
        walked, added := Walk(stages, sources[i].stage, done, order, order);
        if walked == None {
          return None;
        }
        done, order := walked.value.0, walked.value.1;
      } else {
        assert LocalNames(sources[i..]) == LocalNames(sources[i + 1..]);
      }
    }
    VisitNothing(stages, {}, order);
    return Some(order);
  }

  /** Every stage that a declared one depends on is declared. */
  ghost predicate Closed(stages: Stages) {
    forall name, next | name in stages && next in Dependencies(stages[name]) :: next in stages
  }

  ghost predicate Acyclic(stages: Stages) {
    forall name <- stages :: !Cyclic(stages, name)
  }

  /**
    A plan is ordered exactly when its image selects something, every stage it
    names or depends on is declared, and no declared stage depends on itself; and
    then the order holds exactly the stages the image needs, dependencies first.
    */
  lemma PlannedExactly(stages: Stages, image: Image)
    ensures
      var planned, local := Planned(stages, image), LocalNames(ImageSources(image));
      && (planned.Some? <==>
            && image != Components(None, None) && Closed(stages) && Acyclic(stages)
            && forall name <- local :: name in stages)
      && (planned.Some? ==>
            && DependenciesFirst(stages, planned.value)
            && forall name :: name in planned.value <==> exists from <- local :: Reachable(stages, from, name))
  {
    hide Visit, Reachable, Buildable, Closed, Acyclic, DependenciesFirst, InOrder, LocalNames;
    var local := LocalNames(ImageSources(image));
    VisitExactly(stages, InOrder(stages.Keys));
    VisitExactly(stages, local);
    if Buildable(stages, InOrder(stages.Keys)) {
      AllBuildable(stages, InOrder(stages.Keys));
    }
    if Closed(stages) && Acyclic(stages) {
      BuildableDeclared(stages, InOrder(stages.Keys));
      BuildableDeclared(stages, local);
    }
  }

  lemma AllBuildable(stages: Stages, names: seq<string>)
    requires Buildable(stages, names) && forall name <- stages :: name in names
    ensures Closed(stages) && Acyclic(stages)
  {
    hide Dependencies, Reachable, Cyclic;
    forall name, next | name in stages && next in Dependencies(stages[name])
      ensures next in stages
    {
      ReachableItself(stages, next);
      ReachableBefore(stages, name, next, next);
    }
    forall name | name in stages
      ensures !Cyclic(stages, name)
    {
      ReachableItself(stages, name);
    }
  }

  lemma BuildableDeclared(stages: Stages, names: seq<string>)
    requires Closed(stages) && Acyclic(stages)
    ensures Buildable(stages, names) <==> forall name <- names :: name in stages
  {
    hide Dependencies, Cyclic;
    forall name | name in names
      ensures Reachable(stages, name, name)
    {
      ReachableItself(stages, name);
    }
    forall from, to | from in stages && Reachable(stages, from, to)
      ensures to in stages
    {
      var path :| Leads(stages, path) && path[0] == from && path[|path| - 1] == to;
      if |path| > 1 {
        var last := path[|path| - 2];
        assert last in stages && to in Dependencies(stages[last]);
      }
    }
  }

  /** So in a planned order, inputs and COPY sources are built before what uses them. */
  lemma PlannedInOrder(stages: Stages, image: Image)
    requires Planned(stages, image).Some?
    ensures
      var plan := Plan(stages, Planned(stages, image).value, image);
      && SelectsSomething(plan)
      && (forall name <- plan.order :: name in stages)
      && CopiesFirst(plan) && InputsFirst(plan)
      && forall name <- LocalNames(ImageSources(image)) :: name in plan.order
  {
    hide Planned, Reachable, DependenciesFirst, SourcesIn, LocalNames;
    PlannedExactly(stages, image);
    var order := Planned(stages, image).value;
    forall i | 0 <= i < |order|
      ensures order[i] in stages && SourcesIn(stages[order[i]].derive, order[..i])
      ensures stages[order[i]].from.Local? ==> stages[order[i]].from.stage in order[..i]
    {
      FirstIsInOrder(stages, order, i);
    }
    forall name | name in LocalNames(ImageSources(image))
      ensures name in order
    {
      ReachableItself(stages, name);
    }
  }

  lemma FirstIsInOrder(stages: Stages, order: seq<string>, i: nat)
    requires DependenciesFirst(stages, order) && i < |order|
    ensures order[i] in stages && SourcesIn(stages[order[i]].derive, order[..i])
    ensures stages[order[i]].from.Local? ==> stages[order[i]].from.stage in order[..i]
  {
    var stage := stages[order[i]];
    forall directive | directive in stage.derive && directive.CopyFrom?
      ensures directive.stage in order[..i]
    {
      assert directive.stage in CopySources(stage.derive);
      assert directive.stage in Dependencies(stage);
    }
    if stage.from.Local? {
      assert stage.from.stage in Dependencies(stage);
    }
  }

  /** Every stage that another one starts from is built before it. */
  ghost predicate InputsFirst(plan: Plan)
    requires forall name <- plan.order :: name in plan.stages
  {
    forall i | 0 <= i < |plan.order| ::
      var from := plan.stages[plan.order[i]].from;
      from.Local? ==> from.stage in plan.order[..i]
  }
}
