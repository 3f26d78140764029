/**
  What the boot configuration parser reads, as functions on the text that is
  still to be read. Each returns the text left over.
  */
module BootSyntax {
  import opened Wrappers
  import opened BootText
  import opened BootArena

  /** One value: quoted, or a run up to a delimiter. */
  ghost function Value(s: string): (r: Option<(string, string)>)
    ensures r.Some? ==> |r.value.1| <= |s|
    ensures r.Some? ==> r.value.1 == "" || Delimiter(r.value.1[0])
  {
    var s := Skip(s, Blank);
    if s != "" && Quote(s[0]) then QuotedAt(s) else PlainAt(s)
  }

  ghost function QuotedAt(s: string): (r: Option<(string, string)>)
    requires s != ""
    ensures r.Some? ==> |r.value.1| <= |s|
    ensures r.Some? ==> r.value.1 == "" || Delimiter(r.value.1[0])
  {
    var n := Run(s[1..], Unquoted(s[0]));
    if n == |s| - 1 then None
    else Closed(s[1..][..n], Skip(s[n + 2..], Blank))
  }

  ghost function PlainAt(s: string): (r: Option<(string, string)>)
    ensures r.Some? ==> |r.value.1| <= |s|
    ensures r.Some? ==> r.value.1 == "" || Delimiter(r.value.1[0])
  {
    var n := Run(s, Undelimited);
    // White space at the very end of the text belongs to the value.
    var value := if n == |s| then s else TrimEnd(s[..n]);
    if Printable(value) then Some((value, Skip(s, Undelimited))) else None
  }

  lemma ValueSkips(s: string)
    ensures Value(s) == Value(Skip(s, Blank))
  {
    hide Run, Skip, QuotedAt, PlainAt;
    SkipNone(Skip(s, Blank), Blank);
  }

  lemma ValueLead(lead: string, s: string)
    requires All(lead, Blank)
    ensures Value(lead + s) == Value(s)
  {
    hide Run, Skip, QuotedAt, PlainAt;
    SkipPrefix(lead, s, Blank);
  }

  /** The value of a quoted body followed, after blanks, by `rest`. */
  ghost function Closed(body: string, rest: string): Option<(string, string)> {
    if (rest != "" && !Delimiter(rest[0])) || !Printable(body) then None else Some((body, rest))
  }

  lemma ValueQuoted(s: string, n: nat)
    requires s != "" && Quote(s[0]) && n == Run(s[1..], Unquoted(s[0]))
    ensures Value(s) == if n == |s| - 1 then None else Closed(s[1..][..n], Skip(s[n + 2..], Blank))
  {
    hide Run, Skip;
    SkipNone(s, Blank);
  }

  lemma ValuePlain(s: string, n: nat)
    requires Stops(s, Blank) && (s != "" ==> !Quote(s[0])) && n == Run(s, Undelimited)
    ensures Value(s) ==
            var value := if n == |s| then s else TrimEnd(s[..n]);
            if Printable(value) then Some((value, s[n..])) else None
  {
    hide Run;
    SkipNone(s, Blank);
  }

  /** White space and comments between a comma and the next value. */
  ghost function Gap(s: string): (rest: string)
    ensures |rest| <= |s|
    ensures rest != "" ==> !Space(rest[0]) && rest[0] != '#'
    decreases |s|
  {
    var rest := Skip(s, Space);
    if rest != "" && rest[0] == '#' then Gap(Skip(rest, InLine)) else rest
  }

  lemma GapSkips(s: string)
    ensures Gap(s) == Gap(Skip(s, Space))
  {
    hide Run, Skip;
    SkipNone(Skip(s, Space), Space);
  }

  lemma GapAgain(s: string)
    requires s != "" && s[0] == '#'
    ensures Gap(s) == Gap(Skip(Skip(s, InLine), Space))
  {
    hide Run, Skip;
    SkipNone(s, Space);
    GapSkips(Skip(s, InLine));
  }

  lemma GapEnd(s: string)
    requires Stops(s, Space) && (s != "" ==> s[0] != '#')
    ensures Gap(s) == s
  {
    hide Run, Skip;
    SkipNone(s, Space);
  }

  /** A comma-separated list of values, of which `seen` were read before. */
  ghost function Array(s: string, seen: nat): (r: Option<(seq<string>, string)>)
    ensures r.Some? ==> |r.value.0| > 0 && |r.value.1| <= |s|
    decreases |s|
  {
    var (value, rest) :- Value(s);
    if seen > 0 && seen + 1 > MAX_NODES then None
    else if rest != "" && rest[0] == ',' then
      var (more, rest) :- Array(Gap(rest[1..]), seen + 1);
      Some(([value] + more, rest))
    else Some(([value], rest))
  }

  /** The list whose first values are `read` and whose rest is at the head of `s`. */
  ghost function ArrayMore(read: seq<string>, s: string): Option<(seq<string>, string)> {
    if s != "" && s[0] == ',' then
      var (more, rest) :- Array(Gap(s[1..]), |read|);
      Some((read + more, rest))
    else Some((read, s))
  }

  lemma ArrayFirst(s: string)
    requires Value(s).Some?
    ensures Array(s, 0) == ArrayMore([Value(s).value.0], Value(s).value.1)
  {
    hide Value, Gap;
  }

  lemma ArrayStep(read: seq<string>, s: string)
    requires read != [] && s != "" && s[0] == ','
    ensures ArrayMore(read, s) ==
            match Value(Gap(s[1..]))
            case None => None
            case Some((value, rest)) =>
              if |read| + 1 > MAX_NODES then None else ArrayMore(read + [value], rest)
  {
    hide Value, Gap;
    match Value(Gap(s[1..]))
    case None =>
    case Some((value, rest)) =>
      if rest != "" && rest[0] == ',' {
        var more := Array(Gap(rest[1..]), |read| + 1);
        if more.Some? {
          assert read + ([value] + more.value.0) == (read + [value]) + more.value.0;
        }
      }
  }

  datatype Head =
    | Finished(rest: string)
    | Skipped(rest: string)
    | Word(word: string, rest: string)
    | Invalid

  /** What stands at the head of a scope: a separator, a comment, the end, or a key. */
  ghost function ScopeHead(s: string, nested: bool): (head: Head)
    ensures head.Finished? ==> |head.rest| <= |s|
    ensures head.Skipped? || head.Word? ==> |head.rest| < |s|
  {
    var s := Skip(s, Space);
    if s == "" then if nested then Invalid else Finished(s)
    else if s[0] == ';' then Skipped(s[1..])
    else if s[0] == '#' then Skipped(Skip(s, InLine))
    else if s[0] == '}' && nested then Finished(s[1..])
    else
      var n := Run(s, KeyChar);
      if n == 0 then Invalid else Word(s[..n], s[n..])
  }

  datatype Tail =
    | Opens(rest: string)
    | Writes(op: Op, items: seq<string>, rest: string)
    | Stands(rest: string)
    | Malformed

  /** What follows a key: a group, an assignment, or the end of a bare key. */
  ghost function StatementTail(s: string): (tail: Tail)
    ensures !tail.Malformed? ==> |tail.rest| <= |s|
  {
    var s := Skip(s, Blank);
    if s == "" then Malformed
    else if s[0] == '{' then Opens(s[1..])
    else if s[0] == '=' then Assigned(Set, s[1..])
    else if s[0] == ':' && 1 < |s| && s[1] == '=' then Assigned(Override, s[2..])
    else if s[0] == '+' && 1 < |s| && s[1] == '=' then Assigned(Append, s[2..])
    else if s[0] == ';' || s[0] == '\n' then Stands(s[1..])
    else if s[0] == '#' then Stands(Skip(s, InLine))
    else if s[0] == '}' then Stands(s)
    else Malformed
  }

  /** The tail of an assignment, from its operator. */
  lemma AssignTail(s: string)
    requires s != "" && (s[0] == '=' || s[0] == ':' || s[0] == '+')
    ensures StatementTail(s) ==
            if s[0] == '=' then Assigned(Set, s[1..])
            else if 1 < |s| && s[1] == '=' then Assigned(if s[0] == ':' then Override else Append, s[2..])
            else Malformed
  {
    hide Assigned, Run, Skip;
    SkipNone(s, Blank);
  }

  ghost function Assigned(op: Op, s: string): (tail: Tail)
    ensures !tail.Malformed? ==> |tail.rest| <= |s|
  {
    match Array(s, 0)
    case None => Malformed
    case Some((items, rest)) => Writes(op, items, rest)
  }

  /** Statements up to the end of the text or of the enclosing group. */
  ghost function Scope(s: string, prefix: string, a: Arena): (r: Option<(Arena, string)>)
    ensures r.Some? ==> |r.value.1| <= |s|
    decreases |s|
  {
    match ScopeHead(s, prefix != "")
    case Invalid => None
    case Finished(rest) => Some((a, rest))
    case Skipped(rest) => Scope(rest, prefix, a)
    case Word(word, rest) =>
      var key := Dotted(prefix, word);
      var a :- Apply(Declare(key), a);
      match StatementTail(rest)
      case Malformed => None
      case Stands(rest) => Scope(rest, prefix, a)
      case Writes(op, items, rest) =>
        var a :- Apply(Write(key, op, items), a);
        Scope(rest, prefix, a)
      case Opens(rest) =>
        var (a, rest) :- Scope(rest, key, a);
        Scope(rest, prefix, a)
  }

  /** What one statement after its key does to the state, and what it leaves. */
  ghost function Effect(s: string, key: string, a: Arena): Option<(Arena, string)> {
    match StatementTail(s)
    case Malformed => None
    case Stands(rest) => Some((a, rest))
    case Writes(op, items, rest) =>
      var a :- Apply(Write(key, op, items), a);
      Some((a, rest))
    case Opens(rest) => Scope(rest, key, a)
  }

  lemma ScopeStep(s: string, word: string, rest: string, prefix: string, a: Arena)
    requires ScopeHead(s, prefix != "") == Word(word, rest)
    ensures Scope(s, prefix, a) ==
            match Apply(Declare(Dotted(prefix, word)), a)
            case None => None
            case Some(b) =>
              match Effect(rest, Dotted(prefix, word), b)
              case None => None
              case Some((c, more)) => Scope(more, prefix, c)
  {
    hide ScopeHead, StatementTail, Apply;
  }

  /** A scope depends on its text only through its head. */
  lemma ScopeHeads(s: string, t: string, prefix: string, a: Arena)
    requires ScopeHead(s, prefix != "") == ScopeHead(t, prefix != "") || ScopeHead(s, prefix != "") == Skipped(t)
    ensures Scope(s, prefix, a) == Scope(t, prefix, a)
  {
    hide ScopeHead, StatementTail, Apply;
  }

  lemma ScopeSkips(s: string, rest: string, prefix: string, a: Arena)
    requires Skip(s, Space) != ""
    requires var t := Skip(s, Space);
      if t[0] == ';' then rest == t[1..] else t[0] == '#' && rest == Skip(t, InLine)
    ensures Scope(s, prefix, a) == Scope(rest, prefix, a)
  {
    assert ScopeHead(s, prefix != "") == Skipped(rest);
    ScopeHeads(s, rest, prefix, a);
    hide Scope;
  }

  lemma ScopeEnds(s: string, prefix: string, a: Arena)
    requires var t := Skip(s, Space); t == "" || (prefix != "" && t[0] == '}')
    ensures var t := Skip(s, Space);
      Scope(s, prefix, a) ==
      if t != "" then Some((a, t[1..])) else if prefix == "" then Some((a, t)) else None
  {
    HeadEnds(s, prefix != "");
    hide ScopeHead;
  }

  lemma HeadEnds(s: string, nested: bool)
    requires var t := Skip(s, Space); t == "" || (nested && t[0] == '}')
    ensures var t := Skip(s, Space);
      ScopeHead(s, nested) == if t != "" then Finished(t[1..]) else if nested then Invalid else Finished(t)
  {
  }

  lemma ScopeInvalid(s: string, prefix: string, a: Arena)
    requires ScopeHead(s, prefix != "") == Invalid
    ensures Scope(s, prefix, a) == None
  {
    hide ScopeHead;
  }

  lemma WordHead(s: string, nested: bool)
    requires var t := Skip(s, Space); t != "" && t[0] != ';' && t[0] != '#' && !(nested && t[0] == '}')
    ensures var t := Skip(s, Space); var n := Run(t, KeyChar);
      ScopeHead(s, nested) == if n == 0 then Invalid else Word(t[..n], t[n..])
  {
  }

  lemma TailSkips(s: string)
    ensures StatementTail(s) == StatementTail(Skip(s, Blank))
  {
    hide Run, Skip, Assigned;
    SkipNone(Skip(s, Blank), Blank);
  }

  lemma TailOf(s: string)
    requires Stops(s, Blank)
    ensures s == "" ==> StatementTail(s) == Malformed
    ensures s != "" && s[0] == '{' ==> StatementTail(s) == Opens(s[1..])
    ensures s != "" && (s[0] == ';' || s[0] == '\n') ==> StatementTail(s) == Stands(s[1..])
    ensures s != "" && s[0] == '#' ==> StatementTail(s) == Stands(Skip(s, InLine))
    ensures s != "" && s[0] == '}' ==> StatementTail(s) == Stands(s)
    ensures s != "" && (s[0] == '=' || s[0] == ':' || s[0] == '+') ==>
              StatementTail(s).Writes? || StatementTail(s).Malformed?
    ensures s != "" && s[0] !in "{=:+;\n#}" ==> StatementTail(s) == Malformed
  {
    hide Array, Run, Skip;
    SkipNone(s, Blank);
  }

  /** A whole file: only the empty text may define no key. */
  ghost function Parse(text: string): Option<Arena> {
    if '\0' in text then None
    else
      var (a, _) :- Scope(text, "", EMPTY);
      if text != "" && a.values == map[] then None else Some(a)
  }
}
