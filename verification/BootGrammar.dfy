/**
  The boot configuration language as written: statement trees with every
  comment, gap and quoting choice. Parsing the text of a tree is the same as
  flattening its groups and folding the override semantics, and nothing else
  parses.
  */
module BootGrammar {
  import opened Wrappers
  import opened Strings
  import opened BootText
  import opened BootArena
  import opened BootSyntax

  datatype Literal =
    | Quoted(lead: string, quote: char, body: string, trail: string)
    | Plain(lead: string, body: string, trail: string)

  datatype Trivia = White(c: char) | Remark(body: string)

  datatype List = Last(item: Literal) | More(item: Literal, gap: seq<Trivia>, rest: List)

  datatype Script =
    | End
    | Break(c: char, next: Script)
    | Note(remark: string, next: Script)
    | Bare(word: string, gap: string, next: Script)
    | Assign(word: string, gap: string, op: Op, list: List, next: Script)
    | Group(word: string, gap: string, body: Script, next: Script)

  // ---- Written form ----

  function LiteralText(literal: Literal): string {
    match literal
    case Quoted(lead, quote, body, trail) => lead + ([quote] + (body + ([quote] + trail)))
    case Plain(lead, body, trail) => lead + (body + trail)
  }

  function GapText(gap: seq<Trivia>): string {
    if gap == [] then ""
    else (match gap[0] case White(c) => [c] case Remark(body) => "#" + body) + GapText(gap[1..])
  }

  function ListText(list: List): string {
    match list
    case Last(item) => LiteralText(item)
    case More(item, gap, rest) => LiteralText(item) + ("," + (GapText(gap) + ListText(rest)))
  }

  function OpText(op: Op): string {
    match op case Set => "=" case Override => ":=" case Append => "+="
  }

  function Text(script: Script): string {
    match script
    case End => ""
    case Break(c, next) => [c] + Text(next)
    case Note(body, next) => "#" + (body + Text(next))
    case Bare(word, gap, next) => word + (gap + Text(next))
    case Assign(word, gap, op, list, next) => word + (gap + (OpText(op) + (ListText(list) + Text(next))))
    case Group(word, gap, body, next) => word + (gap + ("{" + (Text(body) + ("}" + Text(next)))))
  }

  // ---- Well-formedness, relative to the text that follows ----

  ghost predicate Ends(after: string) {
    after == "" || Delimiter(after[0])
  }

  ghost predicate LiteralFits(literal: Literal, after: string) {
    && All(literal.lead, Blank) && All(literal.trail, Blank) && Printable(literal.body) && Ends(after)
    && match literal
       case Quoted(_, quote, body, _) => Quote(quote) && quote !in body
       case Plain(_, body, trail) =>
         && All(body, Undelimited)
         && (body == "" ==> trail == "")
         && (body != "" ==> !Space(body[0]) && !Quote(body[0]))
         && (if after == "" then trail == "" else body != "" ==> !Space(body[|body| - 1]))
  }

  ghost predicate GapFits(gap: seq<Trivia>, after: string) {
    gap != [] ==>
      && GapFits(gap[1..], after)
      && match gap[0]
         case White(c) => Space(c)
         case Remark(body) => All(body, InLine) && Stops(GapText(gap[1..]) + after, InLine)
  }

  ghost predicate ListFits(list: List, after: string) {
    match list
    case Last(item) => LiteralFits(item, after) && (after != "" ==> after[0] != ',')
    case More(item, gap, rest) =>
      var tail := ListText(rest) + after;
      && LiteralFits(item, ",")
      && GapFits(gap, tail) && Stops(tail, Space) && (tail != "" ==> tail[0] != '#')
      && ListFits(rest, after)
  }

  ghost predicate WordFits(word: string, gap: string) {
    word != "" && All(word, KeyChar) && All(gap, Blank)
  }

  ghost predicate Fits(script: Script, after: string) {
    match script
    case End => true
    case Break(c, next) => (Space(c) || c == ';') && Fits(next, after)
    case Note(body, next) => All(body, InLine) && Stops(Text(next) + after, InLine) && Fits(next, after)
    case Bare(word, gap, next) =>
      var tail := Text(next) + after;
      && WordFits(word, gap) && Fits(next, after)
      && tail != "" && Delimiter(tail[0]) && tail[0] != ','
    case Assign(word, gap, _, list, next) =>
      WordFits(word, gap) && ListFits(list, Text(next) + after) && Fits(next, after)
    case Group(word, gap, body, next) =>
      WordFits(word, gap) && Fits(body, "}" + (Text(next) + after)) && Fits(next, after)
  }

  // ---- Meaning ----

  function Items(list: List): (items: seq<string>)
    ensures items != []
  {
    match list
    case Last(item) => [item.body]
    case More(item, _, rest) => [item.body] + Items(rest)
  }

  /** The flat statements of a tree: groups become dotted keys. */
  function Steps(script: Script, prefix: string): seq<Step> {
    match script
    case End => []
    case Break(_, next) => Steps(next, prefix)
    case Note(_, next) => Steps(next, prefix)
    case Bare(word, _, next) => [Declare(Dotted(prefix, word))] + Steps(next, prefix)
    case Assign(word, _, op, list, next) =>
      var key := Dotted(prefix, word);
      [Declare(key), Write(key, op, Items(list))] + Steps(next, prefix)
    case Group(word, _, body, next) =>
      var key := Dotted(prefix, word);
      [Declare(key)] + (Steps(body, key) + Steps(next, prefix))
  }

  /** What parsing `steps` and then the rest `after` of a scope yields. */
  ghost function Continue(steps: seq<Step>, prefix: string, a: Arena, after: string): Option<(Arena, string)> {
    match Fold(steps, a)
    case None => None
    case Some(b) => Scope(after, prefix, b)
  }

  // ---- Every well-formed tree parses to its meaning ----

  lemma QuotedParses(lead: string, quote: char, body: string, trail: string, after: string)
    requires LiteralFits(Quoted(lead, quote, body, trail), after)
    ensures Value(lead + ([quote] + (body + ([quote] + (trail + after))))) == Some((body, after))
  {
    hide Run, Skip, Value;
    var tail := trail + after;
    var s := [quote] + (body + ([quote] + tail));
    QuotedPieces(quote, body, tail);
    BodyRun(quote, body, [quote] + tail);
    RunOf(trail, after, Blank);
    ValueLead(lead, s);
    ValueQuoted(s, |body|);
  }

  lemma BodyRun(quote: char, body: string, close: string)
    requires quote !in body && close != "" && close[0] == quote
    ensures Run(body + close, Unquoted(quote)) == |body|
  {
    hide Run, Skip;
    RunOf(body, close, Unquoted(quote));
  }

  lemma QuotedPieces(quote: char, body: string, tail: string)
    ensures var s := [quote] + (body + ([quote] + tail));
      s[0] == quote && s[1..] == body + ([quote] + tail) && s[1..][..|body|] == body && s[|body| + 2..] == tail
  {
  }

  lemma PlainParses(lead: string, body: string, trail: string, after: string)
    requires LiteralFits(Plain(lead, body, trail), after)
    ensures Value(lead + ((body + trail) + after)) == Some((body, after))
  {
    var raw := body + trail;
    var s := raw + after;
    assert raw != "" ==> s[0] == body[0];
    RunOf(raw, after, Undelimited);
    hide Run, Skip, Value;
    assert s[..|raw|] == raw && s[|raw|..] == after;
    ValueLead(lead, s);
    ValuePlain(s, |raw|);
    if after == "" {
      assert s == body;
    } else {
      TrimOf(body, trail);
    }
  }

  lemma QuotedConcat(lead: string, quote: char, body: string, trail: string, after: string)
    ensures LiteralText(Quoted(lead, quote, body, trail)) + after ==
            lead + ([quote] + (body + ([quote] + (trail + after))))
  {
    Assoc([quote], trail, after);
    Assoc(body, [quote] + trail, after);
    Assoc([quote], body + ([quote] + trail), after);
    Assoc(lead, [quote] + (body + ([quote] + trail)), after);
  }

  lemma LiteralParses(literal: Literal, after: string)
    requires LiteralFits(literal, after)
    ensures Value(LiteralText(literal) + after) == Some((literal.body, after))
  {
    match literal
    case Quoted(lead, quote, body, trail) =>
      QuotedParses(lead, quote, body, trail, after);
      QuotedConcat(lead, quote, body, trail, after);
    case Plain(lead, body, trail) =>
      PlainParses(lead, body, trail, after);
      Assoc(lead, body + trail, after);
  }

  lemma GapSkips(s: string, body: string, tail: string)
    requires s == "#" + body + tail && All(body, InLine) && Stops(tail, InLine)
    ensures Gap(s) == Gap(tail)
  {
    RunOf("#" + body, tail, InLine);
    assert s[0] == '#';
    assert Skip(s, Space) == s;
  }

  lemma {:induction false} GapParses(gap: seq<Trivia>, after: string)
    requires GapFits(gap, after) && Stops(after, Space) && (after != "" ==> after[0] != '#')
    ensures Gap(GapText(gap) + after) == after
  {
    if gap == [] {
      assert GapText(gap) + after == after;
      RunOf("", after, Space);
    } else {
      var tail := GapText(gap[1..]) + after;
      GapParses(gap[1..], after);
      match gap[0]
      case White(c) =>
        Assoc([c], GapText(gap[1..]), after);
        SkipPrefix([c], tail, Space);
      case Remark(body) =>
        Assoc("#" + body, GapText(gap[1..]), after);
        GapSkips("#" + body + tail, body, tail);
    }
  }

  lemma FitsComma(item: Literal, after: string)
    requires LiteralFits(item, ",") && after != "" && after[0] == ','
    ensures LiteralFits(item, after)
  {
  }

  lemma {:induction false} ListParses(list: List, seen: nat, after: string)
    requires ListFits(list, after)
    ensures Array(ListText(list) + after, seen) ==
            if seen + |Items(list)| > MAX_NODES then None else Some((Items(list), after))
  {
    hide Value, Gap, LiteralText, LiteralFits;
    match list
    case Last(item) =>
      LiteralParses(item, after);
    case More(item, gap, rest) =>
      var tail := ListText(rest) + after;
      var middle := "," + (GapText(gap) + tail);
      Assoc(GapText(gap), ListText(rest), after);
      Assoc(",", GapText(gap) + ListText(rest), after);
      Assoc(LiteralText(item), "," + (GapText(gap) + ListText(rest)), after);
      FitsComma(item, middle);
      LiteralParses(item, middle);
      assert middle[1..] == GapText(gap) + tail;
      GapParses(gap, tail);
      ListParses(rest, seen + 1, after);
  }

  lemma WordParses(word: string, s: string, nested: bool)
    requires word != "" && All(word, KeyChar) && Stops(s, KeyChar)
    ensures ScopeHead(word + s, nested) == Word(word, s)
  {
    var t := word + s;
    assert word[0] in word && t[0] == word[0];
    assert Skip(t, Space) == t;
    RunOf(word, s, KeyChar);
  }

  lemma TailParses(gap: string, s: string)
    requires All(gap, Blank)
    ensures StatementTail(gap + s) == StatementTail(s)
  {
    SkipPrefix(gap, s, Blank);
  }

  lemma BreakParses(c: char, s: string, nested: bool)
    requires Space(c) || c == ';'
    ensures if Space(c) then ScopeHead([c] + s, nested) == ScopeHead(s, nested)
            else ScopeHead([c] + s, nested) == Skipped(s)
  {
    if Space(c) {
      SkipPrefix([c], s, Space);
    } else {
      assert ([c] + s)[1..] == s;
      assert Skip([c] + s, Space) == [c] + s;
    }
  }

  lemma NoteParses(body: string, s: string, nested: bool)
    requires All(body, InLine) && Stops(s, InLine)
    ensures ScopeHead("#" + (body + s), nested) == Skipped(s)
  {
    var t := "#" + (body + s);
    assert t == ("#" + body) + s && t[0] == '#';
    RunOf("#" + body, s, InLine);
    assert Skip(t, Space) == t;
  }

  lemma StatementAssoc(word: string, gap: string, tail: string, after: string)
    ensures (word + (gap + tail)) + after == word + (gap + (tail + after))
  {
    Assoc(gap, tail, after);
    Assoc(word, gap + tail, after);
  }

  lemma AssignConcat(word: string, gap: string, op: Op, list: List, next: Script, after: string)
    ensures Text(Assign(word, gap, op, list, next)) + after ==
            word + (gap + (OpText(op) + (ListText(list) + (Text(next) + after))))
  {
    Assoc(ListText(list), Text(next), after);
    Assoc(OpText(op), ListText(list) + Text(next), after);
    StatementAssoc(word, gap, OpText(op) + (ListText(list) + Text(next)), after);
  }

  lemma GroupConcat(word: string, gap: string, body: Script, next: Script, after: string)
    ensures Text(Group(word, gap, body, next)) + after ==
            word + (gap + ("{" + (Text(body) + ("}" + (Text(next) + after)))))
  {
    Assoc("}", Text(next), after);
    Assoc(Text(body), "}" + Text(next), after);
    Assoc("{", Text(body) + ("}" + Text(next)), after);
    StatementAssoc(word, gap, "{" + (Text(body) + ("}" + Text(next))), after);
  }

  /** After the word and gap of a statement comes the character deciding its kind. */
  lemma HeadParses(word: string, gap: string, tail: string, nested: bool)
    requires WordFits(word, gap) && tail != "" && !KeyChar(tail[0])
    ensures ScopeHead(word + (gap + tail), nested) == Word(word, gap + tail)
    ensures StatementTail(gap + tail) == StatementTail(tail)
  {
    hide ScopeHead, StatementTail;
    assert gap == "" ==> gap + tail == tail;
    assert gap != "" ==> gap[0] in gap;
    WordParses(word, gap + tail, nested);
    TailParses(gap, tail);
  }

  lemma OperatorStarts(op: Op, s: string)
    ensures var tail := OpText(op) + s; tail != "" && !KeyChar(tail[0])
  {
  }

  lemma ScopeBreak(c: char, s: string, prefix: string, a: Arena)
    requires Space(c) || c == ';'
    ensures Scope([c] + s, prefix, a) == Scope(s, prefix, a)
  {
    hide ScopeHead, Scope;
    BreakParses(c, s, prefix != "");
    ScopeHeads([c] + s, s, prefix, a);
  }

  lemma ScopeNote(body: string, s: string, prefix: string, a: Arena)
    requires All(body, InLine) && Stops(s, InLine)
    ensures Scope("#" + (body + s), prefix, a) == Scope(s, prefix, a)
  {
    hide ScopeHead, Scope;
    NoteParses(body, s, prefix != "");
    ScopeHeads("#" + (body + s), s, prefix, a);
  }

  lemma NoteSplit(s: string) returns (body: string, rest: string)
    requires s != "" && s[0] == '#'
    ensures rest == Skip(s, InLine)
    ensures s == "#" + (body + rest) && All(body, InLine) && Stops(rest, InLine) && |rest| < |s|
  {
    var n := Run(s, InLine);
    body, rest := s[1..n], s[n..];
  }

  /** A bare key's delimiter may as well be left to the enclosing scope. */
  lemma StandsParses(s: string, prefix: string, a: Arena)
    requires s != "" && Delimiter(s[0]) && s[0] != ','
    ensures StatementTail(s).Stands?
    ensures Scope(StatementTail(s).rest, prefix, a) == Scope(s, prefix, a)
  {
    hide Scope, ScopeHead, StatementTail;
    StandsTail(s);
    if s[0] == ';' || s[0] == '\n' {
      assert s == [s[0]] + s[1..];
      ScopeBreak(s[0], s[1..], prefix, a);
    } else if s[0] == '#' {
      var body, rest := NoteSplit(s);
      ScopeNote(body, rest, prefix, a);
    }
  }

  lemma StandsTail(s: string)
    requires s != "" && Delimiter(s[0]) && s[0] != ','
    ensures StatementTail(s) ==
            Stands(if s[0] == '#' then Skip(s, InLine) else if s[0] == '}' then s else s[1..])
  {
    hide Run, Skip, Assigned;
    SkipNone(s, Blank);
  }

  lemma AssignedParses(op: Op, list: List, after: string)
    requires ListFits(list, after)
    ensures StatementTail(OpText(op) + (ListText(list) + after)) ==
            if |Items(list)| > MAX_NODES then Malformed else Writes(op, Items(list), after)
  {
    ListParses(list, 0, after);
    OperatorParses(op, ListText(list) + after);
  }

  lemma OperatorParses(op: Op, s: string)
    ensures StatementTail(OpText(op) + s) == Assigned(op, s)
  {
    hide Array;
    assert (OpText(op) + s)[|OpText(op)|..] == s;
  }

  /** A list beyond the node limit fails in either reading of the language. */
  lemma LongListFails(key: string, op: Op, items: seq<string>, a: Arena)
    requires |items| > MAX_NODES && Apply(Declare(key), a).Some?
    ensures Apply(Write(key, op, items), Apply(Declare(key), a).value) == None
  {
    var b := Apply(Declare(key), a).value;
    assert key in b.keys;
    assert |b.keys| > 0;
  }

  lemma {:induction false} ScriptParses(script: Script, prefix: string, a: Arena, after: string)
    requires Fits(script, after)
    ensures Scope(Text(script) + after, prefix, a) == Continue(Steps(script, prefix), prefix, a, after)
    decreases script, 1
  {
    hide Scope, Fold, ListFits;
    match script
    case End =>
      assert Text(script) + after == after;
      assert Fold(Steps(script, prefix), a) == Some(a) by { FoldNone(a); }
    case Break(c, next) =>
      Assoc([c], Text(next), after);
      ScopeBreak(c, Text(next) + after, prefix, a);
      ScriptParses(next, prefix, a, after);
    case Note(body, next) =>
      Assoc(body, Text(next), after);
      Assoc("#", body + Text(next), after);
      ScopeNote(body, Text(next) + after, prefix, a);
      ScriptParses(next, prefix, a, after);
    case Bare(word, gap, next) =>
      BareParses(word, gap, next, prefix, a, after);
    case Assign(word, gap, op, list, next) =>
      AssignParses(word, gap, op, list, next, prefix, a, after);
    case Group(word, gap, body, next) =>
      GroupParses(word, gap, body, next, prefix, a, after);
  }

  lemma {:induction false} BareParses(word: string, gap: string, next: Script, prefix: string, a: Arena, after: string)
    requires Fits(Bare(word, gap, next), after)
    ensures Scope(Text(Bare(word, gap, next)) + after, prefix, a) ==
            Continue(Steps(Bare(word, gap, next), prefix), prefix, a, after)
    decreases Bare(word, gap, next), 0
  {
    hide Scope, ScopeHead, StatementTail, ListFits, Apply, Fold;
    var tail, key := Text(next) + after, Dotted(prefix, word);
    StatementAssoc(word, gap, Text(next), after);
    assert gap == "" ==> gap + tail == tail;
    assert gap != "" ==> gap[0] in gap;
    WordParses(word, gap + tail, prefix != "");
    TailParses(gap, tail);
    ScopeStep(word + (gap + tail), word, gap + tail, prefix, a);
    FoldCons(Declare(key), Steps(next, prefix), a);
    match Apply(Declare(key), a)
    case None =>
    case Some(b) =>
      StandsParses(tail, prefix, b);
      ScriptParses(next, prefix, b, after);
  }

  lemma {:induction false} AssignParses(word: string, gap: string, op: Op, list: List, next: Script,
                                        prefix: string, a: Arena, after: string)
    requires Fits(Assign(word, gap, op, list, next), after)
    ensures Scope(Text(Assign(word, gap, op, list, next)) + after, prefix, a) ==
            Continue(Steps(Assign(word, gap, op, list, next), prefix), prefix, a, after)
    decreases Assign(word, gap, op, list, next), 0
  {
    hide Scope, ScopeHead, StatementTail, ListFits, ListText, Text, Apply, Fold;
    var key, next_ := Dotted(prefix, word), Text(next) + after;
    var tail := OpText(op) + (ListText(list) + next_);
    var write, rest := Write(key, op, Items(list)), Steps(next, prefix);
    AssignConcat(word, gap, op, list, next, after);
    OperatorStarts(op, ListText(list) + next_);
    HeadParses(word, gap, tail, prefix != "");
    AssignedParses(op, list, next_);
    ScopeStep(word + (gap + tail), word, gap + tail, prefix, a);
    assert [Declare(key), write] + rest == [Declare(key)] + ([write] + rest);
    FoldCons(Declare(key), [write] + rest, a);
    match Apply(Declare(key), a)
    case None =>
    case Some(b) =>
      FoldCons(write, rest, b);
      if |Items(list)| > MAX_NODES {
        LongListFails(key, op, Items(list), a);
      } else if Apply(write, b).Some? {
        ScriptParses(next, prefix, Apply(write, b).value, after);
      }
  }

  lemma {:induction false} GroupParses(word: string, gap: string, body: Script, next: Script,
                                       prefix: string, a: Arena, after: string)
    requires Fits(Group(word, gap, body, next), after)
    ensures Scope(Text(Group(word, gap, body, next)) + after, prefix, a) ==
            Continue(Steps(Group(word, gap, body, next), prefix), prefix, a, after)
    decreases Group(word, gap, body, next), 0
  {
    hide Scope, ScopeHead, StatementTail, ListFits, Text, Apply, Fold;
    var key, close := Dotted(prefix, word), "}" + (Text(next) + after);
    var tail := "{" + (Text(body) + close);
    GroupConcat(word, gap, body, next, after);
    HeadParses(word, gap, tail, prefix != "");
    OpensParses(Text(body) + close);
    ScopeStep(word + (gap + tail), word, gap + tail, prefix, a);
    FoldCons(Declare(key), Steps(body, key) + Steps(next, prefix), a);
    match Apply(Declare(key), a)
    case None =>
    case Some(b) =>
      FoldConcat(Steps(body, key), Steps(next, prefix), b);
      ScriptParses(body, key, b, close);
      match Fold(Steps(body, key), b)
      case None =>
      case Some(c) =>
        CloseParses(Text(next) + after, key, c);
        ScriptParses(next, prefix, c, after);
  }

  lemma OpensParses(s: string)
    ensures StatementTail("{" + s) == Opens(s)
  {
    assert ("{" + s)[1..] == s;
  }

  lemma CloseParses(s: string, prefix: string, a: Arena)
    requires prefix != ""
    ensures Scope("}" + s, prefix, a) == Some((a, s))
  {
    assert Skip("}" + s, Space) == "}" + s;
    assert ("}" + s)[1..] == s;
  }

  // ---- Nothing else parses ----

  lemma QuotedLength(s: string) returns (n: nat)
    requires s != "" && Quote(s[0]) && Value(s).Some?
    ensures n + 1 < |s| && s[n + 1] == s[0] && s[0] !in s[1..][..n]
    ensures Printable(s[1..][..n]) && Ends(Skip(s[n + 2..], Blank))
  {
    hide Value;
    n := Run(s[1..], Unquoted(s[0]));
    ValueQuoted(s, n);
  }

  lemma QuotedSlices(s: string, n: nat, m: nat)
    requires n + 1 < |s| && s[n + 1] == s[0] && m <= |s| - n - 2
    ensures var tail := s[n + 2..]; s == [s[0]] + (s[1..][..n] + ([s[0]] + (tail[..m] + tail[m..])))
  {
    var tail := s[n + 2..];
    assert tail == tail[..m] + tail[m..];
    assert s[1..] == s[1..][..n] + ([s[0]] + tail);
  }

  lemma QuotedRead(s: string, lead: string) returns (literal: Literal, rest: string)
    requires s != "" && Quote(s[0]) && Value(s).Some? && All(lead, Blank)
    ensures LiteralFits(literal, rest) && lead + s == LiteralText(literal) + rest
  {
    hide Value;
    var n := QuotedLength(s);
    var quote, body, tail := s[0], s[1..][..n], s[n + 2..];
    var m := Run(tail, Blank);
    literal, rest := Quoted(lead, quote, body, tail[..m]), tail[m..];
    QuotedSlices(s, n, m);
    QuotedConcat(lead, quote, body, tail[..m], rest);
  }

  lemma PlainValue(s: string)
    requires Stops(s, Blank) && (s != "" ==> !Quote(s[0])) && Value(s).Some?
    ensures var n := Run(s, Undelimited); Printable(if n == |s| then s else TrimEnd(s[..n]))
  {
    hide Value, Run;
    ValuePlain(s, Run(s, Undelimited));
  }

  lemma TrimSplit(raw: string)
    ensures raw == TrimEnd(raw) + raw[|TrimEnd(raw)|..]
    ensures All(raw[|TrimEnd(raw)|..], Space)
    ensures raw != "" && !Space(raw[0]) ==> TrimEnd(raw) != ""
  {
  }

  lemma PlainRead(s: string, lead: string) returns (literal: Literal, rest: string)
    requires Stops(s, Blank) && (s != "" ==> !Quote(s[0])) && Value(s).Some? && All(lead, Blank)
    ensures LiteralFits(literal, rest) && lead + s == LiteralText(literal) + rest
  {
    hide Value;
    PlainValue(s);
    var n := Run(s, Undelimited);
    var raw := s[..n];
    rest := s[n..];
    assert s == raw + rest;
    if rest == "" {
      assert raw == s && raw + "" == raw;
      literal := Plain(lead, s, "");
    } else {
      literal := PlainTrimmed(raw, rest, lead);
    }
    Assoc(lead, raw, rest);
  }

  /** The literal of a run that a delimiter ends. */
  lemma PlainTrimmed(raw: string, rest: string, lead: string) returns (literal: Literal)
    requires rest != "" && Delimiter(rest[0]) && All(raw, Undelimited) && All(lead, Blank) && Printable(TrimEnd(raw))
    requires raw != "" ==> !Blank(raw[0]) && !Quote(raw[0])
    ensures LiteralFits(literal, rest) && literal.Plain? && literal.lead == lead && literal.body + literal.trail == raw
  {
    hide Printable, TrimEnd;
    TrimSplit(raw);
    var body, trail := TrimEnd(raw), raw[|TrimEnd(raw)|..];
    literal := Plain(lead, body, trail);
    assert body != "" ==> body[0] == raw[0] && raw[0] in raw;
    assert forall c <- body :: c in raw;
    assert forall c <- trail :: c in raw;
  }

  lemma ValueRead(s: string) returns (literal: Literal, rest: string)
    requires Value(s).Some?
    ensures LiteralFits(literal, rest) && s == LiteralText(literal) + rest
    ensures Value(s) == Some((literal.body, rest))
  {
    hide Value;
    ValueSkips(s);
    var t, lead := Skip(s, Blank), s[..Run(s, Blank)];
    assert s == lead + t;
    if t != "" && Quote(t[0]) {
      literal, rest := QuotedRead(t, lead);
    } else {
      literal, rest := PlainRead(t, lead);
    }
    LiteralParses(literal, rest);
  }

  lemma GapWhite(c: char, s: string)
    requires Space(c)
    ensures Gap([c] + s) == Gap(s)
  {
    SkipPrefix([c], s, Space);
  }

  lemma NoGap(s: string)
    ensures GapFits([], s) && s == GapText([]) + s
  {
  }

  lemma RemarkRead(s: string, body: string, tail: string, rest: seq<Trivia>)
    requires s == "#" + (body + tail) && All(body, InLine) && Stops(tail, InLine)
    requires GapFits(rest, Gap(tail)) && tail == GapText(rest) + Gap(tail)
    ensures Gap(s) == Gap(tail) && GapFits([Remark(body)] + rest, Gap(s)) && s == GapText([Remark(body)] + rest) + Gap(s)
  {
    hide Gap, Skip;
    assert s == "#" + body + tail;
    GapSkips(s, body, tail);
    assert ([Remark(body)] + rest)[1..] == rest;
    Assoc("#" + body, GapText(rest), Gap(s));
  }

  lemma WhiteRead(c: char, tail: string, rest: seq<Trivia>)
    requires Space(c) && GapFits(rest, Gap(tail)) && tail == GapText(rest) + Gap(tail)
    ensures var s := [c] + tail;
      Gap(s) == Gap(tail) && GapFits([White(c)] + rest, Gap(s)) && s == GapText([White(c)] + rest) + Gap(s)
  {
    hide Gap, Skip;
    GapWhite(c, tail);
    assert ([White(c)] + rest)[1..] == rest;
    Assoc([c], GapText(rest), Gap(tail));
  }

  lemma GapRead(s: string) returns (gap: seq<Trivia>)
    ensures GapFits(gap, Gap(s)) && s == GapText(gap) + Gap(s)
    decreases |s|
  {
    hide Gap, GapText, GapFits, Skip;
    if s != "" && Space(s[0]) {
      var rest := GapRead(s[1..]);
      gap := [White(s[0])] + rest;
      assert s == [s[0]] + s[1..];
      WhiteRead(s[0], s[1..], rest);
    } else if s != "" && s[0] == '#' {
      var body, tail := NoteSplit(s);
      var rest := GapRead(tail);
      gap := [Remark(body)] + rest;
      RemarkRead(s, body, tail, rest);
    } else {
      gap := [];
      GapEnd(s);
      NoGap(s);
    }
  }

  lemma ListRead(s: string, seen: nat) returns (list: List, rest: string)
    requires Array(s, seen).Some?
    ensures ListFits(list, rest) && s == ListText(list) + rest
    decreases |s|
  {
    hide Value, Gap;
    var item, more := ValueRead(s);
    if more != "" && more[0] == ',' {
      var gap := GapRead(more[1..]);
      var tail;
      tail, rest := ListRead(Gap(more[1..]), seen + 1);
      list := More(item, gap, tail);
      Assoc(GapText(gap), ListText(tail), rest);
      Assoc(",", GapText(gap) + ListText(tail), rest);
      Assoc(LiteralText(item), "," + (GapText(gap) + ListText(tail)), rest);
      assert more == "," + more[1..];
    } else {
      list, rest := Last(item), more;
    }
  }

  lemma OperatorRead(s: string) returns (op: Op, operand: string)
    requires StatementTail(s).Writes? && Stops(s, Blank)
    ensures s == OpText(op) + operand && Array(operand, 0).Some?
  {
    hide Array, Run, Skip;
    SkipNone(s, Blank);
    op := StatementTail(s).op;
    operand := s[|OpText(op)|..];
  }

  /** A statement's tail, read back as an operator and a list. */
  lemma AssignRead(s: string) returns (op: Op, list: List, rest: string)
    requires StatementTail(s).Writes? && Stops(s, Blank)
    ensures ListFits(list, rest) && s == OpText(op) + (ListText(list) + rest)
    ensures StatementTail(s) == Writes(op, Items(list), rest)
  {
    hide StatementTail, Array;
    var operand;
    op, operand := OperatorRead(s);
    list, rest := ListRead(operand, 0);
    AssignedParses(op, list, rest);
  }

  lemma WordHead(s: string, nested: bool)
    requires ScopeHead(s, nested).Word? && Stops(s, Space)
    ensures var n := Run(s, KeyChar); n > 0 && ScopeHead(s, nested) == Word(s[..n], s[n..])
  {
    RunOf("", s, Space);
  }

  lemma WordRead(s: string, nested: bool) returns (word: string, gap: string, tail: string)
    requires ScopeHead(s, nested).Word? && Stops(s, Space)
    ensures WordFits(word, gap) && s == word + (gap + tail) && Stops(tail, Blank)
    ensures ScopeHead(s, nested) == Word(word, gap + tail)
    ensures StatementTail(gap + tail) == StatementTail(tail)
  {
    hide ScopeHead, StatementTail;
    WordHead(s, nested);
    word := s[..Run(s, KeyChar)];
    var more := s[|word|..];
    gap, tail := more[..Run(more, Blank)], Skip(more, Blank);
    assert s == word + more && more == gap + tail;
    TailParses(gap, tail);
  }

  lemma SeparatorRead(s: string, nested: bool)
    requires s != "" && (ScopeHead(s, nested).Skipped? || Space(s[0]))
    ensures Space(s[0]) || s[0] == ';' || s[0] == '#'
  {
    if !Space(s[0]) {
      RunOf("", s, Space);
    }
  }

  lemma ScopeEnd(s: string, nested: bool)
    requires Stops(s, Space) && ScopeHead(s, nested).Finished?
    ensures if nested then s != "" && s[0] == '}' else s == ""
  {
    RunOf("", s, Space);
  }

  /** What a scope that parses owes to the statement at its head. */
  lemma StatementSome(s: string, word: string, rest: string, prefix: string, a: Arena)
    requires ScopeHead(s, prefix != "") == Word(word, rest) && Scope(s, prefix, a).Some?
    ensures
      var key := Dotted(prefix, word);
      Apply(Declare(key), a).Some? &&
      var b := Apply(Declare(key), a).value;
      match StatementTail(rest)
      case Malformed => false
      case Stands(rest) => Scope(rest, prefix, b).Some?
      case Writes(op, items, rest) =>
        Apply(Write(key, op, items), b).Some? && Scope(rest, prefix, Apply(Write(key, op, items), b).value).Some?
      case Opens(rest) =>
        Scope(rest, key, b).Some? && Scope(Scope(rest, key, b).value.1, prefix, Scope(rest, key, b).value.0).Some?
  {
    hide ScopeHead, StatementTail;
  }

  lemma ScopeSome(s: string, prefix: string, a: Arena)
    requires Scope(s, prefix, a).Some? && (s != "" ==> !Space(s[0]) && s[0] != ';' && s[0] != '#')
    ensures Stops(s, Space)
    ensures ScopeHead(s, prefix != "").Word? || (if prefix == "" then s == "" else s != "" && s[0] == '}')
  {
    var head := ScopeHead(s, prefix != "");
    if head.Finished? {
      ScopeEnd(s, prefix != "");
    } else if head.Skipped? {
      SeparatorRead(s, prefix != "");
    }
    hide ScopeHead;
  }

  /** Every scope that parses is the text of a well-formed tree. */
  lemma ScopeRead(s: string, prefix: string, a: Arena) returns (script: Script, after: string)
    requires Scope(s, prefix, a).Some?
    ensures Fits(script, after) && s == Text(script) + after
    ensures if prefix == "" then after == "" else after != "" && after[0] == '}'
    decreases |s|, 1
  {
    hide Scope, ScopeHead, StatementTail;
    var next;
    if s != "" && (Space(s[0]) || s[0] == ';') {
      assert s == [s[0]] + s[1..];
      ScopeBreak(s[0], s[1..], prefix, a);
      next, after := ScopeRead(s[1..], prefix, a);
      script := Break(s[0], next);
      Assoc([s[0]], Text(next), after);
    } else if s != "" && s[0] == '#' {
      var body, rest := NoteSplit(s);
      ScopeNote(body, rest, prefix, a);
      next, after := ScopeRead(rest, prefix, a);
      script := Note(body, next);
      Assoc(body, Text(next), after);
      Assoc("#", body + Text(next), after);
    } else {
      ScopeSome(s, prefix, a);
      if ScopeHead(s, prefix != "").Word? {
        var word, gap, tail := WordRead(s, prefix != "");
        script, after := StatementRead(word, gap, tail, prefix, a);
      } else {
        script, after := End, s;
        assert s == "" + s;
      }
    }
  }

  /** The three ways a statement's tail may start. */
  lemma TailKind(tail: string)
    requires Stops(tail, Blank) && !StatementTail(tail).Malformed?
    ensures tail != ""
    ensures StatementTail(tail).Opens? ==> tail == "{" + tail[1..] && StatementTail(tail).rest == tail[1..]
    ensures StatementTail(tail).Stands? ==> Delimiter(tail[0]) && tail[0] != ','
  {
    hide Array;
    RunOf("", tail, Blank);
  }

  lemma StatementRead(word: string, gap: string, tail: string, prefix: string, a: Arena)
    returns (script: Script, after: string)
    requires WordFits(word, gap) && Stops(tail, Blank)
    requires ScopeHead(word + (gap + tail), prefix != "") == Word(word, gap + tail)
    requires StatementTail(gap + tail) == StatementTail(tail)
    requires Scope(word + (gap + tail), prefix, a).Some?
    ensures Fits(script, after) && word + (gap + tail) == Text(script) + after
    ensures if prefix == "" then after == "" else after != "" && after[0] == '}'
    decreases |word + (gap + tail)|, 0
  {
    hide Scope, ScopeHead, StatementTail, ListFits, Apply;
    StatementSome(word + (gap + tail), word, gap + tail, prefix, a);
    TailKind(tail);
    var key := Dotted(prefix, word);
    var b := Apply(Declare(key), a).value;
    var next;
    match StatementTail(tail)
    case Stands(_) =>
      StandsParses(tail, prefix, b);
      next, after := ScopeRead(tail, prefix, b);
      script := Bare(word, gap, next);
      StatementAssoc(word, gap, Text(next), after);
    case Writes(_, _, _) =>
      var op, list, rest := AssignRead(tail);
      next, after := ScopeRead(rest, prefix, Apply(Write(key, op, Items(list)), b).value);
      script := Assign(word, gap, op, list, next);
      AssignConcat(word, gap, op, list, next, after);
    case Opens(rest) =>
      var body, close, c := BodyRead(rest, key, b);
      next, after := ScopeRead(close, prefix, c);
      script := Group(word, gap, body, next);
      GroupConcat(word, gap, body, next, after);
  }

  lemma BodyRead(s: string, key: string, a: Arena) returns (body: Script, rest: string, b: Arena)
    requires key != "" && Scope(s, key, a).Some?
    ensures s == Text(body) + ("}" + rest) && Fits(body, "}" + rest)
    ensures Scope(s, key, a) == Some((b, rest))
    decreases |s|, 2
  {
    var close;
    body, close := ScopeRead(s, key, a);
    rest := close[1..];
    assert close == "}" + rest;
    ScriptParses(body, key, a, close);
    b := Fold(Steps(body, key), a).value;
    CloseParses(rest, key, b);
  }

  // ---- The language ----

  /** `text` is a written form of `script`. */
  ghost predicate WrittenAs(script: Script, text: string) {
    Fits(script, "") && Text(script) == text
  }

  /** The meaning of a file that consists of `script`. */
  function Meaning(script: Script): Option<Arena> {
    if '\0' in Text(script) then None
    else
      var a :- Fold(Steps(script, ""), EMPTY);
      if Text(script) != "" && a.values == map[] then None else Some(a)
  }

  lemma EndHead()
    ensures ScopeHead("", false) == Finished("")
  {
  }

  /**
    Groups flatten: parsing any written form of a tree folds the override
    semantics over its fully dotted statements, failures included.
    */
  lemma Flattens(script: Script, text: string)
    requires WrittenAs(script, text)
    ensures Parse(text) == Meaning(script)
  {
    hide ScopeHead, Fold;
    assert text + "" == text;
    ScriptParses(script, "", EMPTY, "");
    EndHead();
  }

  /** A text parses exactly when it is the written form of a tree with a meaning. */
  lemma ParsesExactly(text: string, a: Arena)
    ensures Parse(text) == Some(a) <==>
            exists script :: WrittenAs(script, text) && Meaning(script) == Some(a)
  {
    if Parse(text) == Some(a) {
      var script, after := ScopeRead(text, "", EMPTY);
      assert Text(script) + "" == Text(script);
      assert WrittenAs(script, text);
      Flattens(script, text);
    }
    forall script | WrittenAs(script, text) && Meaning(script) == Some(a)
      ensures Parse(text) == Some(a)
    {
      Flattens(script, text);
    }
  }
}
