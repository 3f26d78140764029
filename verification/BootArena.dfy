/**
  Keys, the bounded node arena, and the meaning of one statement: declaring a
  dotted key and writing its value with `=`, `:=` or `+=`.
  */
module BootArena {
  import opened Wrappers
  import opened BootText
  import opened Strings

  const MAX_NODES := 8192

  type Values = map<string, seq<string>>

  datatype Op = Set | Override | Append

  /** The state the parser accumulates, apart from its position. */
  datatype Arena = Arena(values: Values, keys: set<string>, allocations: nat) {
    function Nodes(): nat {
      |keys| + allocations
    }
  }

  const EMPTY := Arena(map[], {}, 0)

  datatype Step = Declare(key: string) | Write(key: string, op: Op, items: seq<string>)

  predicate SegmentChar(c: char) {
    Alphanumeric(c) || c == '-' || c == '_'
  }

  predicate Segment(part: string) {
    part != "" && forall c <- part :: SegmentChar(c)
  }

  predicate ValidKey(key: string) {
    && |key| < 256
    && |Split(key, '.')| <= 16
    && forall part <- Split(key, '.') :: Segment(part)
  }

  lemma ValidKeyChars(key: string)
    requires ValidKey(key)
    ensures key != "" && All(key, KeyChar)
  {
    SplitChars(key, '.');
    assert Split(key, '.')[0] in Split(key, '.');
  }

  /** A key together with every dotted ancestor of it: its nodes in the tree. */
  function Nodes(key: string): set<string> {
    Ancestors(key) + {key}
  }

  function Ancestors(key: string): set<string> {
    set i | 0 <= i < |key| && key[i] == '.' :: key[..i]
  }

  function Dotted(prefix: string, word: string): string {
    if prefix == "" then word else prefix + "." + word
  }

  function Apply(step: Step, a: Arena): Option<Arena> {
    match step
    case Declare(key) =>
      var keys := a.keys + Nodes(key);
      if !ValidKey(key) || |keys| + a.allocations > MAX_NODES then None
      else Some(Arena(if key in a.values then a.values else a.values[key := []], keys, a.allocations))
    case Write(key, op, items) =>
      if key !in a.values || items == [] then None
      else
        var current := a.values[key];
        if op == Set && current != [] then None
        else
          var b := if op == Append
                   then a.(allocations := a.allocations + |items|, values := a.values[key := current + items])
                   else a.(allocations := a.allocations + |items| - (if current != [] then 1 else 0),
                           values := a.values[key := items]);
          if b.Nodes() > MAX_NODES then None else Some(b)
  }

  /** The override semantics of a whole file, folded over its flat statements. */
  function Fold(steps: seq<Step>, a: Arena): Option<Arena> {
    if steps == [] then Some(a)
    else
      var b :- Apply(steps[0], a);
      Fold(steps[1..], b)
  }

  lemma FoldNone(a: Arena)
    ensures Fold([], a) == Some(a)
  {
  }

  lemma FoldCons(step: Step, rest: seq<Step>, a: Arena)
    ensures Fold([step] + rest, a) ==
            match Apply(step, a) case None => None case Some(b) => Fold(rest, b)
  {
    assert ([step] + rest)[1..] == rest;
  }

  lemma FoldConcat(left: seq<Step>, right: seq<Step>, a: Arena)
    ensures Fold(left + right, a) ==
            match Fold(left, a) case None => None case Some(b) => Fold(right, b)
  {
    if left == [] {
      assert left + right == right;
    } else {
      assert (left + right)[1..] == left[1..] + right;
      match Apply(left[0], a)
      case None =>
      case Some(b) => FoldConcat(left[1..], right, b);
    }
  }

  // ---- Arena accounting ----

  /** The number of live value nodes under the given keys. */
  ghost function Live(values: Values, keys: set<string>): nat
    requires keys <= values.Keys
  {
    if keys == {} then 0
    else
      var key :| key in keys;
      |values[key]| + Live(values, keys - {key})
  }

  lemma LiveRemove(values: Values, keys: set<string>, key: string)
    requires keys <= values.Keys && key in keys
    ensures Live(values, keys) == |values[key]| + Live(values, keys - {key})
  {
    var first :| first in keys && Live(values, keys) == |values[first]| + Live(values, keys - {first});
    if first != key {
      LiveRemove(values, keys - {first}, key);
      LiveRemove(values, keys - {key}, first);
      assert keys - {first} - {key} == keys - {key} - {first};
    }
  }

  lemma {:induction false} LiveAgree(left: Values, right: Values, keys: set<string>)
    requires keys <= left.Keys && keys <= right.Keys
    requires forall key <- keys :: left[key] == right[key]
    ensures Live(left, keys) == Live(right, keys)
  {
    if keys != {} {
      var key :| key in keys;
      LiveRemove(left, keys, key);
      LiveRemove(right, keys, key);
      LiveAgree(left, right, keys - {key});
    }
  }

  lemma LiveUpdate(values: Values, key: string, items: seq<string>)
    ensures Live(values[key := items], values[key := items].Keys) ==
            Live(values, values.Keys) + |items| - (if key in values then |values[key]| else 0)
  {
    var updated := values[key := items];
    LiveRemove(updated, updated.Keys, key);
    assert updated.Keys - {key} == values.Keys - {key};
    LiveAgree(updated, values, values.Keys - {key});
    if key in values {
      LiveRemove(values, values.Keys, key);
    } else {
      assert values.Keys - {key} == values.Keys;
    }
  }

  /**
    What the parser's bookkeeping guarantees: its key set holds every tree node
    a stored key needs, its counter covers every live value, and the sum of
    both stays within the limit.
    */
  ghost predicate Accounted(a: Arena) {
    && (forall key <- a.values :: Nodes(key) <= a.keys && ValidKey(key))
    && Live(a.values, a.values.Keys) <= a.allocations
    && a.Nodes() <= MAX_NODES
  }

  lemma {:induction false} ApplyAccounted(step: Step, a: Arena)
    requires Accounted(a) && Apply(step, a).Some?
    ensures Accounted(Apply(step, a).value)
  {
    match step
    case Declare(key) =>
      if key !in a.values {
        LiveUpdate(a.values, key, []);
      }
    case Write(key, op, items) =>
      var current := a.values[key];
      LiveUpdate(a.values, key, if op == Append then current + items else items);
  }

  lemma {:induction false} FoldAccounted(steps: seq<Step>, a: Arena)
    requires Accounted(a) && Fold(steps, a).Some?
    ensures Accounted(Fold(steps, a).value)
  {
    if steps != [] {
      ApplyAccounted(steps[0], a);
      FoldAccounted(steps[1..], Apply(steps[0], a).value);
    }
  }
}
