/**
  The glob matcher: a forward simulation over a state vector with one entry
  per byte offset, against the recursive meaning of a pattern.
  */
module Glob {
  import opened Wrappers
  import opened Bytes
  import opened Utf8

  datatype Token =
    | Literal(bytes: seq<Byte>)
    | Star
    | Any
    | Class(negated: bool, ranges: seq<(char, char)>)

  const SLASH: Byte := 0x2F

  predicate InRanges(c: char, ranges: seq<(char, char)>) {
    exists range <- ranges :: range.0 <= c <= range.1
  }

  /**
    `token` can consume the bytes from `start` to `end`. A star takes any run
    of bytes, not runes, without a separator; the others take whole runes.
    */
  ghost predicate Consumes(token: Token, name: seq<Byte>, start: nat, end: nat) {
    && start <= end <= |name|
    && match token
       case Literal(bytes) => name[start..end] == bytes
       case Star => SLASH !in name[start..end]
       case Any => start < |name| && name[start] != SLASH && end == start + RuneAt(name[start..]).width
       case Class(negated, ranges) =>
         && start < |name| && end == start + RuneAt(name[start..]).width
         && InRanges(RuneAt(name[start..]).value, ranges) != negated
  }

  /** The meaning of a pattern: its tokens consume the name from `start` to its end. */
  ghost predicate Match(tokens: seq<Token>, name: seq<Byte>, start: nat) {
    if tokens == [] then start == |name|
    else exists next: nat :: Consumes(tokens[0], name, start, next) && Match(tokens[1..], name, next)
  }

  /** The tokens can consume the name up to `end`. */
  ghost predicate Reaches(tokens: seq<Token>, name: seq<Byte>, end: nat) {
    if tokens == [] then end == 0
    else
      var last := |tokens| - 1;
      exists start: nat :: Reaches(tokens[..last], name, start) && Consumes(tokens[last], name, start, end)
  }

  /** The first `k` tokens reach `middle`, from which the others match. */
  ghost predicate Meets(tokens: seq<Token>, k: nat, name: seq<Byte>, middle: nat)
    requires k <= |tokens|
  {
    Reaches(tokens[..k], name, middle) && Match(tokens[k..], name, middle)
  }

  lemma MeetsNext(tokens: seq<Token>, k: nat, name: seq<Byte>, middle: nat) returns (next: nat)
    requires k < |tokens| && Meets(tokens, k, name, middle)
    ensures Meets(tokens, k + 1, name, next)
  {
    hide Consumes;
    assert tokens[k..][0] == tokens[k] && tokens[k..][1..] == tokens[k + 1..];
    next :| Consumes(tokens[k], name, middle, next) && Match(tokens[k + 1..], name, next);
    assert tokens[..k + 1][..k] == tokens[..k] && tokens[..k + 1][k] == tokens[k];
  }

  lemma MeetsPrevious(tokens: seq<Token>, k: nat, name: seq<Byte>, next: nat) returns (middle: nat)
    requires k < |tokens| && Meets(tokens, k + 1, name, next)
    ensures Meets(tokens, k, name, middle)
  {
    hide Consumes;
    assert tokens[..k + 1][..k] == tokens[..k] && tokens[..k + 1][k] == tokens[k];
    middle :| Reaches(tokens[..k], name, middle) && Consumes(tokens[k], name, middle, next);
    assert tokens[k..][0] == tokens[k] && tokens[k..][1..] == tokens[k + 1..];
  }

  /** Reading tokens forwards and backwards gives the same matches. */
  lemma {:induction false} MatchSplit(tokens: seq<Token>, k: nat, name: seq<Byte>)
    requires k <= |tokens|
    ensures Match(tokens, name, 0) <==> exists middle: nat :: Meets(tokens, k, name, middle)
  {
    if k == 0 {
      assert tokens[0..] == tokens && Reaches(tokens[..0], name, 0);
      assert Match(tokens, name, 0) ==> Meets(tokens, 0, name, 0);
    } else {
      hide Meets, Match;
      var last: nat := k - 1;
      MatchSplit(tokens, last, name);
      if middle: nat :| Meets(tokens, last, name, middle) {
        var next := MeetsNext(tokens, last, name, middle);
      }
      if next: nat :| Meets(tokens, k, name, next) {
        var middle := MeetsPrevious(tokens, last, name, next);
      }
    }
  }

  lemma MatchReaches(tokens: seq<Token>, name: seq<Byte>)
    ensures Match(tokens, name, 0) <==> Reaches(tokens, name, |name|)
  {
    hide Consumes;
    MatchSplit(tokens, |tokens|, name);
    assert tokens[..|tokens|] == tokens && tokens[|tokens|..] == [];
    assert Reaches(tokens, name, |name|) ==> Meets(tokens, |tokens|, name, |name|);
  }

  /** The offsets one token reaches from the marked ones. */
  ghost predicate Advances(token: Token, name: seq<Byte>, marked: seq<bool>, limit: nat, end: nat)
    requires limit <= |marked|
  {
    exists start: nat :: start < limit && marked[start] && Consumes(token, name, start, end)
  }

  /** Does the whole name match the pattern? */
  method Matches(tokens: seq<Token>, name: seq<Byte>) returns (result: bool)
    ensures result <==> Match(tokens, name, 0)
  {
    hide Consumes, Match;
    var reachable := new bool[|name| + 1](i => i == 0);
    var next := new bool[|name| + 1](_ => false);
    for k := 0 to |tokens|
      invariant reachable.Length == next.Length == |name| + 1 && reachable != next
      invariant fresh(reachable) && fresh(next)
      invariant forall end | 0 <= end <= |name| :: reachable[end] <==> Reaches(tokens[..k], name, end)
    {
      Step(tokens[k], name, reachable, next);
      forall end: nat | end <= |name|
        ensures next[end] <==> Reaches(tokens[..k + 1], name, end)
      {
        assert tokens[..k + 1][..k] == tokens[..k] && tokens[..k + 1][k] == tokens[k];
        ConsumesBounds(tokens[k], name, end);
      }
      reachable, next := next, reachable;
    }
    MatchReaches(tokens, name);
    assert tokens[..|tokens|] == tokens;
    return reachable[|name|];
  }

  lemma ConsumesBounds(token: Token, name: seq<Byte>, end: nat)
    ensures forall start: nat | Consumes(token, name, start, end) :: start <= |name|
  {
  }

  /** One token of the simulation: fill `next` from `reachable`. */
  method Step(token: Token, name: seq<Byte>, reachable: array<bool>, next: array<bool>)
    requires reachable.Length == next.Length == |name| + 1 && reachable != next
    modifies next
    ensures forall end | 0 <= end <= |name| ::
              next[end] <==> Advances(token, name, reachable[..], |name| + 1, end)
  {
    hide RuneAt, InRanges;
    ghost var marked := reachable[..];
    forall i | 0 <= i < next.Length {
      next[i] := false;
    }
    for offset := 0 to |name| + 1
      invariant marked == reachable[..]
      invariant token.Star? ==> forall end | 0 <= end < offset :: next[end] <==> Advances(token, name, marked, |marked|, end)
      invariant !token.Star? ==> forall end | 0 <= end <= |name| :: next[end] <==> Advances(token, name, marked, offset, end)
    {
      assert marked[offset] == reachable[offset];
      match token
      case Star =>
        StarStep(name, marked, offset);
        next[offset] := reachable[offset] || (offset > 0 && name[offset - 1] != SLASH && next[offset - 1]);
      case Literal(bytes) =>
        AdvanceStep(token, name, marked, offset, offset + |bytes|);
        if reachable[offset] && offset + |bytes| <= |name| && name[offset..offset + |bytes|] == bytes {
          next[offset + |bytes|] := true;
        }
      case Any =>
        if offset < |name| {
          var rune := DecodeRune(name[offset..]);
          AdvanceStep(token, name, marked, offset, offset + rune.width);
          if reachable[offset] && name[offset] != SLASH {
            next[offset + rune.width] := true;
          }
        } else {
          AdvanceStep(token, name, marked, offset, offset);
        }
      case Class(negated, ranges) =>
        if offset < |name| {
          var rune := DecodeRune(name[offset..]);
          AdvanceStep(token, name, marked, offset, offset + rune.width);
          if reachable[offset] && InRanges(rune.value, ranges) != negated {
            next[offset + rune.width] := true;
          }
        } else {
          AdvanceStep(token, name, marked, offset, offset);
        }
    }
  }

  /** A star reaches an offset by stopping there or by crossing the byte before it. */
  lemma StarStep(name: seq<Byte>, marked: seq<bool>, end: nat)
    requires |marked| == |name| + 1 && end <= |name|
    ensures Advances(Star, name, marked, |marked|, end) <==>
            marked[end] || (end > 0 && name[end - 1] != SLASH && Advances(Star, name, marked, |marked|, end - 1))
  {
    assert Consumes(Star, name, end, end);
    if end > 0 {
      forall start: nat | start < end
        ensures Consumes(Star, name, start, end) <==>
                Consumes(Star, name, start, end - 1) && name[end - 1] != SLASH
      {
        assert name[start..end] == name[start..end - 1] + [name[end - 1]];
      }
    }
  }

  /** From one offset, a token other than a star reaches at most one offset, `target`. */
  lemma AdvanceStep(token: Token, name: seq<Byte>, marked: seq<bool>, offset: nat, target: nat)
    requires !token.Star? && |marked| == |name| + 1 && offset <= |name|
    requires forall end: nat | Consumes(token, name, offset, end) :: end == target
    ensures forall end: nat :: Advances(token, name, marked, offset + 1, end) <==>
              Advances(token, name, marked, offset, end) ||
              (end == target && marked[offset] && Consumes(token, name, offset, target))
  {
    hide Consumes;
    forall end: nat
      ensures Advances(token, name, marked, offset + 1, end) <==>
              Advances(token, name, marked, offset, end) ||
              (end == target && marked[offset] && Consumes(token, name, offset, target))
    {
      if Advances(token, name, marked, offset + 1, end) {
        var start: nat :| start < offset + 1 && marked[start] && Consumes(token, name, start, end);
        assert start < offset || start == offset;
      }
    }
  }

  /**
    A star may stop inside a rune, as in the source: `*??` matches the three
    bytes of a single euro sign, so stars do not range over runes.
    */
  lemma StarSplitsRunes()
    ensures Encode('\U{20AC}') == [0xE2, 0x82, 0xAC]
    ensures Match([Star, Any, Any], Encode('\U{20AC}'), 0)
  {
    var name: seq<Byte> := [0xE2, 0x82, 0xAC];
    assert name[1..] == [0x82, 0xAC] && name[2..] == [0xAC];
    LoneTail(name[1..]);
    LoneTail(name[2..]);
    hide RuneAt;
    assert Consumes(Star, name, 0, 1) && Consumes(Any, name, 1, 2) && Consumes(Any, name, 2, 3);
    hide Consumes;
    assert [Star, Any, Any][1..] == [Any, Any] && [Any, Any][1..] == [Any] && [Any][1..] == [];
    assert Match([], name, 3);
    assert Match([Any], name, 2);
    assert Match([Any, Any], name, 1);
  }

  lemma LoneTail(bytes: seq<Byte>)
    requires bytes != [] && IsTail(bytes[0])
    ensures RuneAt(bytes) == Rune(REPLACEMENT, 1)
  {
    forall w | 1 <= w <= |bytes| && w <= 4
      ensures Scalar(bytes[..w]) == None
    {
      assert bytes[..w][0] == bytes[0];
    }
  }
}
