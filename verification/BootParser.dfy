/**
  The cursor-driven parser: every method moves `at` and edits the maps in
  place, and is proved against the functions of BootSyntax on the text that
  remains.
  */
module BootParser {
  import opened Wrappers
  import opened BootText
  import opened BootArena
  import opened Strings
  import BootSyntax

  class Parser {
    const text: string
    var at: nat
    var values: Values
    var keys: set<string>
    var allocations: nat

    constructor (text: string)
      ensures this.text == text && Valid() && Rest() == text && State() == EMPTY
    {
      this.text := text;
      at, values, keys, allocations := 0, map[], {}, 0;
    }

    ghost predicate Valid()
      reads this
    {
      at <= |text|
    }

    ghost function Rest(): string
      reads this
      requires Valid()
    {
      text[at..]
    }

    ghost function State(): Arena
      reads this
    {
      Arena(values, keys, allocations)
    }

    predicate At(c: char)
      reads this
    {
      at < |text| && text[at] == c
    }

    method Spaces(newline: bool)
      requires Valid()
      modifies this`at
      ensures Valid() && at >= old(at)
      ensures Rest() == Skip(old(Rest()), if newline then Space else Blank)
    {
      while at < |text| && Space(text[at]) && (newline || text[at] != '\n')
        invariant old(at) <= at <= |text|
        invariant forall i | old(at) <= i < at :: if newline then Space(text[i]) else Blank(text[i])
      {
        at := at + 1;
      }
      RunAt(text, old(at), at, if newline then Space else Blank);
    }

    method Comment()
      requires Valid()
      modifies this`at
      ensures Valid() && at >= old(at)
      ensures Rest() == Skip(old(Rest()), InLine)
    {
      while at < |text| && text[at] != '\n'
        invariant old(at) <= at <= |text|
        invariant forall i | old(at) <= i < at :: InLine(text[i])
      {
        at := at + 1;
      }
      RunAt(text, old(at), at, InLine);
    }

    /** Everything up to the closing quote or the end of the text. */
    method QuotedBody(quote: char) returns (body: string)
      requires Valid()
      modifies this`at
      ensures Valid() && at >= old(at)
      ensures var s := old(Rest()); var n := Run(s, Unquoted(quote)); body == s[..n] && Rest() == s[n..]
    {
      hide Run, Skip;
      var start := at;
      while at < |text| && text[at] != quote
        invariant start <= at <= |text|
        invariant forall i | start <= i < at :: Unquoted(quote)(text[i])
      {
        at := at + 1;
      }
      RunSplit(text, start, at, Unquoted(quote));
      body := text[start..at];
    }

    /** Everything up to a delimiter or the end of the text. */
    method PlainBody() returns (body: string)
      requires Valid()
      modifies this`at
      ensures Valid() && at >= old(at)
      ensures var s := old(Rest()); var n := Run(s, Undelimited); body == s[..n] && Rest() == s[n..]
    {
      hide Run, Skip, Delimiter;
      var start := at;
      while at < |text| && !Delimiter(text[at])
        invariant start <= at <= |text|
        invariant forall i | start <= i < at :: Undelimited(text[i])
      {
        at := at + 1;
      }
      RunSplit(text, start, at, Undelimited);
      body := text[start..at];
    }

    /** A quoted value, from its opening quote. */
    method QuotedValue() returns (value: Option<string>)
      requires Valid() && at < |text| && Quote(text[at])
      modifies this`at
      ensures Valid() && at >= old(at)
      ensures Returned(value, BootSyntax.Value(old(Rest())), Rest())
    {
      hide BootSyntax.Value, Run, Skip;
      ghost var s := Rest();
      var quote := text[at];
      at := at + 1;
      assert s[1..] == Rest();
      var body := QuotedBody(quote);
      BootSyntax.ValueQuoted(s, |body|);
      if at == |text| {
        return None;
      }
      at := at + 1;
      assert s[|body| + 2..] == Rest();
      Spaces(false);
      if at < |text| && !Delimiter(text[at]) {
        return None;
      }
      return if Printable(body) then Some(body) else None;
    }

    /** An unquoted value, up to a delimiter. */
    method PlainValue() returns (value: Option<string>)
      requires Valid() && (at < |text| ==> !Blank(text[at]) && !Quote(text[at]))
      modifies this`at
      ensures Valid() && at >= old(at)
      ensures Returned(value, BootSyntax.Value(old(Rest())), Rest())
    {
      hide BootSyntax.Value, Run, Skip;
      ghost var s := Rest();
      var body := PlainBody();
      BootSyntax.ValuePlain(s, |body|);
      assert at == |text| ==> |body| == |s| && body == s;
      if at < |text| {
        body := TrimEnd(body);
      }
      return if Printable(body) then Some(body) else None;
    }

    method Value() returns (value: Option<string>)
      requires Valid()
      modifies this`at
      ensures Valid() && at >= old(at)
      ensures Returned(value, BootSyntax.Value(old(Rest())), Rest())
    {
      hide BootSyntax.Value;
      BootSyntax.ValueSkips(Rest());
      Spaces(false);
      if at < |text| && Quote(text[at]) {
        value := QuotedValue();
      } else {
        value := PlainValue();
      }
    }

    /** White space and comments after a comma. */
    method Gap()
      requires Valid()
      modifies this`at
      ensures Valid() && at >= old(at) && Rest() == BootSyntax.Gap(old(Rest()))
    {
      hide BootSyntax.Gap;
      ghost var s := Rest();
      BootSyntax.GapSkips(s);
      Spaces(true);
      while At('#')
        invariant old(at) <= at <= |text|
        invariant BootSyntax.Gap(s) == BootSyntax.Gap(Rest())
        invariant at < |text| ==> !Space(text[at])
        decreases |text| - at
      {
        BootSyntax.GapAgain(Rest());
        Comment();
        Spaces(true);
      }
      BootSyntax.GapEnd(Rest());
    }

    method Array() returns (items: Option<seq<string>>)
      requires Valid()
      modifies this`at
      ensures Valid() && at >= old(at)
      ensures Returned(items, BootSyntax.Array(old(Rest()), 0), Rest())
    {
      hide BootSyntax.Value, BootSyntax.Gap;
      ghost var whole := BootSyntax.Array(Rest(), 0);
      ghost var s := Rest();
      var first := Value();
      if first == None {
        return None;
      }
      BootSyntax.ArrayFirst(s);
      var values := [first.value];
      while At(',')
        invariant old(at) <= at <= |text| && values != []
        invariant whole == BootSyntax.ArrayMore(values, Rest())
        decreases |text| - at
      {
        s := Rest();
        BootSyntax.ArrayStep(values, s);
        at := at + 1;
        assert s[1..] == Rest();
        Gap();
        var item := Value();
        if item == None {
          return None;
        }
        values := values + [item.value];
        if |values| > MAX_NODES {
          return None;
        }
      }
      return Some(values);
    }

    /** Enter a key and its ancestors into the node set. */
    method Register(key: string) returns (ok: bool)
      requires Valid()
      modifies this`keys, this`values
      ensures ok <==> Apply(Declare(key), old(State())).Some?
      ensures ok ==> ValidKey(key) && key in values
      ensures ok ==> State() == Apply(Declare(key), old(State())).value
    {
      if !ValidKey(key) {
        return false;
      }
      for end := 0 to |key|
        invariant keys == old(keys) + set i | 0 <= i < end && key[i] == '.' :: key[..i]
        invariant values == old(values)
      {
        if key[end] == '.' {
          keys := keys + {key[..end]};
        }
      }
      keys := keys + {key};
      assert keys == old(keys) + Nodes(key);
      if !WithinLimit() {
        return false;
      }
      if key !in values {
        values := values[key := []];
      }
      return true;
    }

    predicate WithinLimit()
      reads this
    {
      |keys| + allocations <= MAX_NODES
    }

    /** The key at the cursor; empty when there is none. */
    method Word() returns (word: string)
      requires Valid()
      modifies this`at
      ensures Valid() && at >= old(at)
      ensures var s := old(Rest()); var n := Run(s, KeyChar); word == s[..n] && Rest() == s[n..]
    {
      hide Run, Skip;
      var start := at;
      while at < |text| && KeyChar(text[at])
        invariant start <= at <= |text|
        invariant forall i | start <= i < at :: KeyChar(text[i])
      {
        at := at + 1;
      }
      RunSplit(text, start, at, KeyChar);
      word := text[start..at];
    }

    /** Store the values of an assignment under a declared key. */
    method Store(key: string, op: Op, items: seq<string>) returns (ok: bool)
      requires key in values && items != []
      modifies this`values, this`allocations
      ensures ok <==> Apply(Write(key, op, items), old(State())).Some?
      ensures ok ==> State() == Apply(Write(key, op, items), old(State())).value
    {
      var current := values[key];
      if op == Set && current != [] {
        return false;
      }
      if op == Append {
        allocations := allocations + |items|;
        values := values[key := current + items];
      } else {
        allocations := allocations + |items| - (if current != [] then 1 else 0);
        values := values[key := items];
      }
      return WithinLimit();
    }

    /** An assignment, from its operator. */
    method Assignment(key: string) returns (ok: bool)
      requires Valid() && key in values && (At('=') || At(':') || At('+'))
      modifies this`at, this`values, this`allocations
      ensures Valid() && at > old(at)
      ensures
        var tail := BootSyntax.StatementTail(old(Rest()));
        ok <==> tail.Writes? && Apply(Write(key, tail.op, tail.items), old(State())).Some?
      ensures
        var tail := BootSyntax.StatementTail(old(Rest()));
        ok ==> State() == Apply(Write(key, tail.op, tail.items), old(State())).value && Rest() == tail.rest
    {
      hide BootSyntax.Array, BootSyntax.StatementTail, Apply;
      ghost var s := Rest();
      BootSyntax.AssignTail(s);
      var op := if text[at] == '=' then Set else if text[at] == ':' then Override else Append;
      at := at + 1;
      if op != Set {
        if !At('=') {
          return false;
        }
        at := at + 1;
      }
      assert Rest() == s[if op == Set then 1 else 2..];
      var items := Array();
      if items == None {
        return false;
      }
      ok := Store(key, op, items.value);
    }

    /**
      Statements up to the end of the text or of the group `prefix`. Each nested
      call has a key of more segments, so recursion is at most 16 deep.
      */
    method Scope(prefix: string) returns (ok: bool)
      requires Valid() && (prefix == "" || ValidKey(prefix))
      modifies this`at, this`values, this`keys, this`allocations
      ensures Valid() && at >= old(at)
      ensures ok <==> BootSyntax.Scope(old(Rest()), prefix, old(State())).Some?
      ensures ok ==> BootSyntax.Scope(old(Rest()), prefix, old(State())) == Some((State(), Rest()))
      decreases 16 - Depth(prefix), 2
    {
      hide BootSyntax.Scope, BootSyntax.Effect, Apply, Depth, ValidKey, Run;
      ghost var whole := BootSyntax.Scope(Rest(), prefix, State());
      while true
        invariant old(at) <= at <= |text|
        invariant whole == BootSyntax.Scope(Rest(), prefix, State())
        decreases |text| - at
      {
        ghost var s, before := Rest(), State();
        Spaces(true);
        if At(';') {
          at := at + 1;
          BootSyntax.ScopeSkips(s, Rest(), prefix, before);
        } else if At('#') {
          Comment();
          BootSyntax.ScopeSkips(s, Rest(), prefix, before);
        } else if (At('}') && prefix != "") || at == |text| {
          BootSyntax.ScopeEnds(s, prefix, before);
          if at == |text| {
            return prefix == "";
          }
          at := at + 1;
          return true;
        } else {
          ok := Entry(prefix, s);
          if !ok {
            return false;
          }
        }
      }
    }

    /** One key with its statement, where the scope that was `s` before white space goes on. */
    method Entry(prefix: string, ghost s: string) returns (ok: bool)
      requires Valid() && (prefix == "" || ValidKey(prefix)) && Rest() == Skip(s, Space)
      requires at < |text| && !At(';') && !At('#') && !(At('}') && prefix != "")
      modifies this`at, this`values, this`keys, this`allocations
      ensures Valid() && at >= old(at)
      ensures ok ==> at > old(at)
      ensures !ok ==> BootSyntax.Scope(s, prefix, old(State())) == None
      ensures ok ==> BootSyntax.Scope(s, prefix, old(State())) == BootSyntax.Scope(Rest(), prefix, State())
      decreases 16 - Depth(prefix), 1
    {
      hide BootSyntax.Scope, BootSyntax.Effect, BootSyntax.ScopeHead, Apply, Skip, Depth, ValidKey;
      ghost var before := State();
      BootSyntax.WordHead(s, prefix != "");
      var word := Word();
      if word == "" {
        BootSyntax.ScopeInvalid(s, prefix, before);
        return false;
      }
      BootSyntax.ScopeStep(s, word, Rest(), prefix, before);
      var key := Dotted(prefix, word);
      ok := Register(key);
      if !ok {
        return false;
      }
      DepthGrows(prefix, word);
      DepthBound(key);
      ok := Statement(key);
    }

    /** The rest of a statement after its declared key. */
    method Statement(key: string) returns (ok: bool)
      requires Valid() && ValidKey(key) && key in values
      modifies this`at, this`values, this`keys, this`allocations
      ensures Valid() && at >= old(at)
      ensures ok <==> BootSyntax.Effect(old(Rest()), key, old(State())).Some?
      ensures ok ==> BootSyntax.Effect(old(Rest()), key, old(State())) == Some((State(), Rest()))
      decreases 16 - Depth(key), 3
    {
      hide BootSyntax.Scope, Apply, BootSyntax.StatementTail, Run, Skip;
      ghost var s := Rest();
      Spaces(false);
      BootSyntax.TailSkips(s);
      BootSyntax.TailOf(Rest());
      if At('{') {
        at := at + 1;
        ok := Scope(key);
      } else if At('=') || At(':') || At('+') {
        ok := Assignment(key);
      } else if At(';') || At('\n') {
        at := at + 1;
        return true;
      } else if At('#') {
        Comment();
        return true;
      } else {
        return At('}');
      }
    }
  }

  ghost function Depth(key: string): nat {
    if key == "" then 0 else |Split(key, '.')|
  }

  lemma DepthBound(key: string)
    requires ValidKey(key)
    ensures Depth(key) <= 16
  {
    hide Split;
  }

  lemma DepthGrows(prefix: string, word: string)
    requires word != ""
    ensures Depth(Dotted(prefix, word)) > Depth(prefix)
  {
    if prefix != "" {
      SplitJoin(prefix, word, '.');
    }
  }

  /** Parse a whole text. */
  method Parse(text: string) returns (values: Option<Values>)
    ensures values == match BootSyntax.Parse(text) case None => None case Some(a) => Some(a.values)
  {
    hide BootSyntax.Scope;
    if '\0' in text {
      return None;
    }
    var parser := new Parser(text);
    var ok := parser.Scope("");
    if !ok || (text != "" && parser.values == map[]) {
      return None;
    }
    return Some(parser.values);
  }

  /** A method's optional result agrees with the function's result and remainder. */
  ghost predicate Returned<T(!new)>(result: Option<T>, expected: Option<(T, string)>, rest: string) {
    match expected
    case None => result == None
    case Some((value, remaining)) => result == Some(value) && rest == remaining
  }
}
