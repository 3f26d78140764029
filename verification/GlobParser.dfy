/** From pattern text to tokens, and what an escaped name matches. */
module GlobParser {
  import opened Wrappers
  import opened Bytes
  import opened Utf8
  import opened Glob
  import opened Strings

  // ---- The pattern grammar, on the text still to be read ----

  function ClassChar(s: string): (r: Option<(char, string)>)
    ensures r.Some? ==> |r.value.1| < |s|
  {
    if s == "" || s[0] == ']' || s[0] == '-' then None
    else if s[0] == '\\' then if |s| == 1 then None else Some((s[1], s[2..]))
    else Some((s[0], s[1..]))
  }

  function ClassRange(s: string): (r: Option<((char, char), string)>)
    ensures r.Some? ==> |r.value.1| < |s|
  {
    var (low, s) :- ClassChar(s);
    if s != "" && s[0] == '-' then
      var (high, s) :- ClassChar(s[1..]);
      Some(((low, high), s))
    else Some(((low, low), s))
  }

  function Ranges(s: string, read: seq<(char, char)>): (r: Option<(seq<(char, char)>, string)>)
    ensures r.Some? ==> |r.value.1| < |s|
    decreases |s|
  {
    if read != [] && s != "" && s[0] == ']' then Some((read, s[1..]))
    else
      var (range, s) :- ClassRange(s);
      Ranges(s, read + [range])
  }

  function TokenAt(s: string): (r: Option<(Token, string)>)
    requires s != ""
    ensures r.Some? ==> |r.value.1| < |s|
  {
    if s[0] == '*' then Some((Star, s[1..]))
    else if s[0] == '?' then Some((Any, s[1..]))
    else if s[0] == '[' then
      var negated := 1 < |s| && s[1] == '^';
      var (ranges, rest) :- Ranges(if negated then s[2..] else s[1..], []);
      Some((Class(negated, ranges), rest))
    else if s[0] == '\\' then if |s| == 1 then None else Some((Literal(Encode(s[1])), s[2..]))
    else Some((Literal(Encode(s[0])), s[1..]))
  }

  function Tokens(s: string): Option<seq<Token>>
    decreases |s|
  {
    if s == "" then Some([])
    else
      var (token, rest) :- TokenAt(s);
      var more :- Tokens(rest);
      Some([token] + more)
  }

  /** The tokens already read, followed by the others. */
  function After(read: seq<Token>, more: Option<seq<Token>>): Option<seq<Token>> {
    match more case None => None case Some(more) => Some(read + more)
  }

  lemma AfterNothing(more: Option<seq<Token>>)
    ensures After([], more) == more
  {
    if more.Some? {
      assert [] + more.value == more.value;
    }
  }

  lemma AfterOne(read: seq<Token>, token: Token, more: Option<seq<Token>>)
    ensures After(read, After([token], more)) == After(read + [token], more)
  {
    if more.Some? {
      assert read + ([token] + more.value) == (read + [token]) + more.value;
    }
  }

  // ---- The parser ----

  class PatternParser {
    const chars: string
    var at: nat

    constructor (chars: string)
      ensures this.chars == chars && at == 0
    {
      this.chars := chars;
      at := 0;
    }

    ghost predicate Valid()
      reads this
    {
      at <= |chars|
    }

    ghost function Rest(): string
      reads this
      requires Valid()
    {
      chars[at..]
    }

    /** Consume `c` if it is next. */
    method NextIf(c: char) returns (taken: bool)
      requires Valid()
      modifies this
      ensures Valid() && taken == (old(Rest()) != "" && old(Rest())[0] == c)
      ensures Rest() == if taken then old(Rest())[1..] else old(Rest())
    {
      taken := at < |chars| && chars[at] == c;
      if taken {
        at := at + 1;
      }
    }

    method Next() returns (c: Option<char>)
      requires Valid()
      modifies this
      ensures Valid() && c == (if old(Rest()) == "" then None else Some(old(Rest())[0]))
      ensures Rest() == if c.Some? then old(Rest())[1..] else old(Rest())
    {
      if at == |chars| {
        return None;
      }
      at := at + 1;
      return Some(chars[at - 1]);
    }

    method ClassCharacter() returns (c: Option<char>)
      requires Valid()
      modifies this
      ensures Valid()
      ensures match ClassChar(old(Rest()))
              case None => c == None
              case Some((value, rest)) => c == Some(value) && Rest() == rest
    {
      c := Next();
      if c == Some('\\') {
        c := Next();
      } else if c == Some(']') || c == Some('-') {
        return None;
      }
    }

    method CharacterClass() returns (token: Option<Token>)
      requires Valid()
      modifies this
      ensures Valid()
      ensures
        var s := old(Rest());
        var negated := s != "" && s[0] == '^';
        match Ranges(if negated then s[1..] else s, [])
        case None => token == None
        case Some((ranges, rest)) => token == Some(Class(negated, ranges)) && Rest() == rest
    {
      var negated := NextIf('^');
      ghost var expected := Ranges(Rest(), []);
      var ranges: seq<(char, char)> := [];
      while true
        invariant Valid() && expected == Ranges(Rest(), ranges)
        decreases |Rest()|
      {
        if ranges != [] {
          var done := NextIf(']');
          if done {
            return Some(Class(negated, ranges));
          }
        }
        var low := ClassCharacter();
        if low == None {
          return None;
        }
        var high := low;
        var range := NextIf('-');
        if range {
          high := ClassCharacter();
          if high == None {
            return None;
          }
        }
        ranges := ranges + [(low.value, high.value)];
      }
    }

    method Parse() returns (tokens: Option<seq<Token>>)
      requires Valid()
      modifies this
      ensures tokens == Tokens(old(Rest()))
    {
      var read: seq<Token> := [];
      ghost var expected := Tokens(Rest());
      AfterNothing(expected);
      while at < |chars|
        invariant Valid()
        invariant expected == After(read, Tokens(Rest()))
        decreases |Rest()|
      {
        ghost var s := Rest();
        assert s[0] == chars[at] && (1 < |s| ==> s[1..] == chars[at + 1..]);
        var c := Next();
        var token: Token;
        match c.value {
          case '*' => token := Star;
          case '?' => token := Any;
          case '[' =>
            var class_ := CharacterClass();
            if class_ == None {
              return None;
            }
            token := class_.value;
          case '\\' =>
            var escaped := Next();
            if escaped == None {
              return None;
            }
            token := Literal(Encode(escaped.value));
          case literal => token := Literal(Encode(literal));
        }
        assert TokenAt(s) == Some((token, Rest()));
        AfterOne(read, token, Tokens(Rest()));
        read := read + [token];
      }
      assert read + [] == read;
      return Some(read);
    }
  }

  // ---- Escaped names ----

  function Escape(name: string): string {
    if name == "" then ""
    else (if name[0] in "*?[\\" then ['\\', name[0]] else [name[0]]) + Escape(name[1..])
  }

  function EncodeAll(text: string): seq<Byte> {
    if text == "" then [] else Encode(text[0]) + EncodeAll(text[1..])
  }

  function Literals(name: string): seq<Token> {
    if name == "" then [] else [Literal(Encode(name[0]))] + Literals(name[1..])
  }

  lemma {:induction false} EscapedTokens(name: string)
    ensures Tokens(Escape(name)) == Some(Literals(name))
  {
    hide Encode;
    if name != "" {
      EscapedTokens(name[1..]);
      var rest := Escape(name[1..]);
      var s := Escape(name);
      if name[0] in "*?[\\" {
        assert s[0] == '\\' && s[1] == name[0] && s[2..] == rest;
      } else {
        assert s[0] == name[0] && s[1..] == rest;
      }
      assert TokenAt(s) == Some((Literal(Encode(name[0])), rest));
    }
  }

  lemma {:induction false} LiteralsMatch(text: string, name: seq<Byte>, start: nat)
    requires start <= |name|
    ensures Match(Literals(text), name, start) <==> name[start..] == EncodeAll(text)
  {
    hide Encode, RuneAt, InRanges;
    if text != "" {
      var head := Encode(text[0]);
      var next := start + |head|;
      assert Literals(text)[1..] == Literals(text[1..]);
      if next <= |name| {
        LiteralsMatch(text[1..], name, next);
        assert name[start..] == name[start..next] + name[next..];
        assert Consumes(Literal(head), name, start, next) <==> name[start..next] == head;
      }
      if name[start..] == EncodeAll(text) {
        assert name[start..][|head|..] == name[next..];
        assert name[start..][..|head|] == name[start..next];
      }
    }
  }

  /** An escaped name is a pattern that matches exactly that name. */
  lemma EscapedMatchesItself(text: string, name: seq<Byte>)
    ensures Tokens(Escape(text)).Some?
    ensures Match(Tokens(Escape(text)).value, name, 0) <==> name == EncodeAll(text)
  {
    EscapedTokens(text);
    LiteralsMatch(text, name, 0);
    assert name[0..] == name;
  }

  // ---- Every token has a spelling ----

  /** What a pattern can say: literal characters, wildcards and classes of at least one range. */
  datatype Glyph = Exactly(c: char) | Anything | One | Among(negated: bool, ranges: seq<(char, char)>) {
    predicate Sayable() {
      Among? ==> ranges != []
    }

    function Meaning(): Token {
      match this
      case Exactly(c) => Literal(Encode(c))
      case Anything => Star
      case One => Any
      case Among(negated, ranges) => Class(negated, ranges)
    }
  }

  function SpellRange(range: (char, char)): string {
    ['\\', range.0, '-', '\\', range.1]
  }

  function SpellRanges(ranges: seq<(char, char)>): string {
    if ranges == [] then "]" else SpellRange(ranges[0]) + SpellRanges(ranges[1..])
  }

  function Spell(glyph: Glyph): string {
    match glyph
    case Exactly(c) => ['\\', c]
    case Anything => "*"
    case One => "?"
    case Among(negated, ranges) => "[" + (if negated then "^" else "") + SpellRanges(ranges)
  }

  function SpellAll(glyphs: seq<Glyph>): string {
    if glyphs == [] then "" else Spell(glyphs[0]) + SpellAll(glyphs[1..])
  }

  function Meanings(glyphs: seq<Glyph>): seq<Token> {
    if glyphs == [] then [] else [glyphs[0].Meaning()] + Meanings(glyphs[1..])
  }

  lemma {:induction false} RangesSpelled(ranges: seq<(char, char)>, read: seq<(char, char)>, after: string)
    requires read + ranges != []
    ensures Ranges(SpellRanges(ranges) + after, read) == Some((read + ranges, after))
    decreases |ranges|
  {
    hide ClassRange, SpellRange;
    var s := SpellRanges(ranges) + after;
    if ranges == [] {
      assert read + ranges == read;
      assert s[0] == ']' && s[1..] == after;
    } else {
      hide Ranges;
      var range, rest := ranges[0], SpellRanges(ranges[1..]) + after;
      Assoc(SpellRange(range), SpellRanges(ranges[1..]), after);
      RangeSpelled(range, rest, s);
      RangesNext(s, read, range, rest);
      RangesSpelled(ranges[1..], read + [range], after);
      assert read + [range] + ranges[1..] == read + ranges;
    }
  }

  lemma RangesNext(s: string, read: seq<(char, char)>, range: (char, char), rest: string)
    requires s != "" && s[0] != ']' && ClassRange(s) == Some((range, rest))
    ensures Ranges(s, read) == Ranges(rest, read + [range])
  {
    hide ClassRange;
  }

  lemma RangeSpelled(range: (char, char), rest: string, s: string)
    requires s == SpellRange(range) + rest
    ensures s != "" && s[0] != ']' && ClassRange(s) == Some((range, rest))
  {
    assert s[2..] == ['-', '\\', range.1] + rest;
    assert s[2..][1..] == ['\\', range.1] + rest;
    assert s[2..][1..][2..] == rest;
  }

  lemma GlyphSpelled(glyph: Glyph, after: string)
    requires glyph.Sayable()
    ensures TokenAt(Spell(glyph) + after) == Some((glyph.Meaning(), after))
  {
    hide TokenAt, Encode, SpellRanges;
    match glyph
    case Exactly(c) => LiteralAt(c, Spell(glyph) + after, after);
    case Anything => StarAt(Spell(glyph) + after, after);
    case One => AnyAt(Spell(glyph) + after, after);
    case Among(negated, ranges) =>
      var body := SpellRanges(ranges) + after;
      hide Spell, Glyph.Meaning;
      ClassSpelled(ranges, after, body);
      Assoc("[" + (if negated then "^" else ""), SpellRanges(ranges), after);
      SpelledClass(negated, ranges);
      ClassAt(negated, ranges, body, Spell(glyph) + after, after);
  }

  lemma SpelledClass(negated: bool, ranges: seq<(char, char)>)
    ensures Spell(Among(negated, ranges)) == "[" + (if negated then "^" else "") + SpellRanges(ranges)
    ensures Among(negated, ranges).Meaning() == Class(negated, ranges)
  {
  }

  lemma LiteralAt(c: char, s: string, after: string)
    requires s == ['\\', c] + after
    ensures TokenAt(s) == Some((Literal(Encode(c)), after))
  {
    hide Encode, Ranges;
    assert s[1] == c && s[2..] == after;
  }

  lemma StarAt(s: string, after: string)
    requires s == "*" + after
    ensures TokenAt(s) == Some((Star, after))
  {
    hide Encode, Ranges;
    assert s[1..] == after;
  }

  lemma AnyAt(s: string, after: string)
    requires s == "?" + after
    ensures TokenAt(s) == Some((Any, after))
  {
    hide Encode, Ranges;
    assert s[1..] == after;
  }

  lemma ClassAt(negated: bool, ranges: seq<(char, char)>, body: string, s: string, after: string)
    requires body != "" && body[0] == '\\' && Ranges(body, []) == Some((ranges, after))
    requires s == "[" + (if negated then "^" else "") + body
    ensures TokenAt(s) == Some((Class(negated, ranges), after))
  {
    hide Encode, Ranges;
    if negated {
      assert s[1] == '^' && s[2..] == body;
    } else {
      assert s[1..] == body && s[1] == '\\';
    }
  }

  lemma ClassSpelled(ranges: seq<(char, char)>, after: string, body: string)
    requires ranges != [] && body == SpellRanges(ranges) + after
    ensures body != "" && body[0] == '\\' && Ranges(body, []) == Some((ranges, after))
  {
    hide Ranges;
    RangesSpelled(ranges, [], after);
    assert [] + ranges == ranges;
    assert SpellRanges(ranges) == SpellRange(ranges[0]) + SpellRanges(ranges[1..]);
  }

  /** Every sequence of sayable tokens has a spelling that parses to it. */
  lemma {:induction false} SpelledTokens(glyphs: seq<Glyph>)
    requires forall glyph <- glyphs :: glyph.Sayable()
    ensures Tokens(SpellAll(glyphs)) == Some(Meanings(glyphs))
  {
    hide Spell, TokenAt, Encode;
    if glyphs != [] {
      assert glyphs[0] in glyphs && forall glyph <- glyphs[1..] :: glyph in glyphs;
      SpelledTokens(glyphs[1..]);
      GlyphSpelled(glyphs[0], SpellAll(glyphs[1..]));
    }
  }

  lemma {:induction false} RangesNonempty(s: string, read: seq<(char, char)>)
    requires Ranges(s, read).Some?
    ensures Ranges(s, read).value.0 != []
    decreases |s|
  {
    hide ClassRange;
    if !(read != [] && s != "" && s[0] == ']') {
      var (range, rest) := ClassRange(s).value;
      RangesNonempty(rest, read + [range]);
    }
  }

  /** And only sayable tokens are ever parsed. */
  lemma {:induction false} ParsedSayable(s: string) returns (glyphs: seq<Glyph>)
    requires Tokens(s).Some?
    ensures (forall glyph <- glyphs :: glyph.Sayable()) && Tokens(s).value == Meanings(glyphs)
    decreases |s|
  {
    hide Encode, Ranges;
    if s == "" {
      glyphs := [];
    } else {
      var (token, rest) := TokenAt(s).value;
      var more := ParsedSayable(rest);
      var glyph;
      match token {
        case Star => glyph := Anything;
        case Any => glyph := One;
        case Class(negated, ranges) =>
          RangesNonempty(if 1 < |s| && s[1] == '^' then s[2..] else s[1..], []);
          glyph := Among(negated, ranges);
        case Literal(_) => glyph := Exactly(if s[0] == '\\' then s[1] else s[0]);
      }
      glyphs := [glyph] + more;
      assert glyphs[1..] == more;
    }
  }

  /** Patterns mean exactly the sequences of sayable tokens. */
  lemma TokensExactly(tokens: seq<Token>)
    ensures (exists s :: Tokens(s) == Some(tokens)) <==>
            exists glyphs: seq<Glyph> :: (forall glyph <- glyphs :: glyph.Sayable()) && Meanings(glyphs) == tokens
  {
    hide Tokens, Glyph.Sayable;
    if s :| Tokens(s) == Some(tokens) {
      var glyphs := ParsedSayable(s);
    }
    if glyphs: seq<Glyph> :| (forall glyph <- glyphs :: glyph.Sayable()) && Meanings(glyphs) == tokens {
      SpelledTokens(glyphs);
    }
  }
}
