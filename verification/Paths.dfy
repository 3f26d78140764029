/** Paths as component sequences, ordered component by component. */
module Paths {
  import opened Bytes
  import opened Orders
  import opened Strings

  type Name = seq<Byte>
  type Path = seq<Name>

  const DOT: Name := [0x2E]
  const PARENT: Name := [0x2E, 0x2E]
  const SEPARATOR: Byte := 0x2F

  predicate Absolute(target: seq<Byte>) {
    target != [] && target[0] == SEPARATOR
  }

  /** The components of a relative path: "." survives only in front. */
  function Components(target: seq<Byte>): Path {
    var parts := Split(target, SEPARATOR);
    (if parts[0] == DOT then [DOT] else []) + Significant(parts)
  }

  function Significant(parts: seq<Name>): Path {
    if parts == [] then []
    else (if parts[0] == [] || parts[0] == DOT then [] else [parts[0]]) + Significant(parts[1..])
  }

  /** The spelling demands a directory: it ends with "/" or "/.". */
  predicate DemandsDirectory(target: seq<Byte>) {
    || (target != [] && target[|target| - 1] == SEPARATOR)
    || (|target| > 1 && target[|target| - 2..] == [SEPARATOR] + DOT)
  }

  predicate NameLess(a: Name, b: Name) {
    Lex(ByteLess, a, b)
  }

  predicate ByteLess(a: Byte, b: Byte) {
    a < b
  }

  predicate PathLess(a: Path, b: Path) {
    Lex(NameLess, a, b)
  }

  lemma PathOrder()
    ensures StrictOrder(NameLess) && StrictOrder(PathLess)
  {
    LexOrder(ByteLess, NameLess);
    LexOrder(NameLess, PathLess);
  }

  // ---- The subtree index ----

  /** The enumeration `range(from..).take_while(starts_with from)` of an ordered map. */
  function Range(keys: seq<Path>, from: Path): (run: seq<Path>) {
    TakeWhile(DropWhile(keys, from), from)
  }

  function DropWhile(keys: seq<Path>, from: Path): seq<Path> {
    if keys != [] && PathLess(keys[0], from) then DropWhile(keys[1..], from) else keys
  }

  function TakeWhile(keys: seq<Path>, from: Path): seq<Path> {
    if keys != [] && from <= keys[0] then [keys[0]] + TakeWhile(keys[1..], from) else []
  }

  /** The keys at or below `from`, in their order. */
  function Under(keys: seq<Path>, from: Path): seq<Path> {
    if keys == [] then []
    else (if from <= keys[0] then [keys[0]] else []) + Under(keys[1..], from)
  }

  /** Whatever is not before `p` and not below it comes after everything below it. */
  lemma {:induction false} PastSubtree(p: Path, a: Path, b: Path)
    requires StrictOrder(NameLess)
    requires !PathLess(a, p) && !(p <= a) && PathLess(a, b)
    ensures !(p <= b)
  {
    if a != [] && p != [] && a[0] == b[0] == p[0] {
      assert p <= b <==> p[1..] <= b[1..];
      assert p <= a <==> p[1..] <= a[1..];
      PastSubtree(p[1..], a[1..], b[1..]);
    }
  }

  lemma {:induction false} BelowIsNotBefore(p: Path, a: Path)
    requires StrictOrder(NameLess) && p <= a
    ensures !PathLess(a, p)
  {
    if p != [] {
      assert p[1..] <= a[1..];
      BelowIsNotBefore(p[1..], a[1..]);
    }
  }

  lemma {:induction false} NoneUnder(keys: seq<Path>, from: Path)
    requires forall key <- keys :: !(from <= key)
    ensures Under(keys, from) == []
  {
    if keys != [] {
      assert keys[0] in keys && forall key <- keys[1..] :: key in keys;
      NoneUnder(keys[1..], from);
    }
  }

  lemma {:induction false} TakeIsUnder(keys: seq<Path>, from: Path)
    requires StrictOrder(NameLess) && Ascending(PathLess, keys)
    requires forall key <- keys :: !PathLess(key, from)
    ensures TakeWhile(keys, from) == Under(keys, from)
  {
    if keys != [] {
      assert keys[0] in keys;
      if from <= keys[0] {
        TakeIsUnder(keys[1..], from);
      } else {
        forall key | key in keys[1..]
          ensures !(from <= key)
        {
          var i :| 1 <= i < |keys| && keys[i] == key;
          PastSubtree(from, keys[0], key);
        }
        NoneUnder(keys[1..], from);
      }
    }
  }

  /**
    The ordered map is a subtree index: in an ascending key sequence the paths
    at or below `from` are one contiguous run, which the range scan yields.
    */
  lemma {:induction false} RangeIsFilter(keys: seq<Path>, from: Path)
    requires Ascending(PathLess, keys)
    ensures Range(keys, from) == Under(keys, from)
  {
    PathOrder();
    hide NameLess, PathLess;
    if keys != [] && PathLess(keys[0], from) {
      if from <= keys[0] {
        BelowIsNotBefore(from, keys[0]);
      }
      RangeIsFilter(keys[1..], from);
    } else {
      forall key | key in keys
        ensures !PathLess(key, from)
      {
        var i :| 0 <= i < |keys| && keys[i] == key;
        assert i > 0 ==> PathLess(keys[0], keys[i]);
      }
      TakeIsUnder(keys, from);
    }
  }

  lemma {:induction false} UnderMembers(keys: seq<Path>, from: Path)
    ensures forall key :: key in Under(keys, from) <==> key in keys && from <= key
  {
    if keys != [] {
      UnderMembers(keys[1..], from);
      assert forall key :: key in keys <==> key == keys[0] || key in keys[1..];
    }
  }
}
