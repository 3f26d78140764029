/**
  Character classes and scanning primitives of the native boot configuration
  text. Text is a sequence of characters; every character the parser tells
  apart is ASCII, so scanning characters and scanning UTF-8 bytes agree.
  */
module BootText {

  predicate Space(c: char) {
    c == ' ' || c == '\t' || c == '\n' || c == '\r' || c == '\U{0B}' || c == '\U{0C}'
  }

  /** White space that does not end a statement. */
  predicate Blank(c: char) {
    Space(c) && c != '\n'
  }

  predicate Alphanumeric(c: char) {
    'a' <= c <= 'z' || 'A' <= c <= 'Z' || '0' <= c <= '9'
  }

  predicate KeyChar(c: char) {
    Alphanumeric(c) || c == '.' || c == '-' || c == '_'
  }

  predicate Delimiter(c: char) {
    c == ',' || c == ';' || c == '\n' || c == '#' || c == '}'
  }

  predicate Undelimited(c: char) {
    !Delimiter(c)
  }

  predicate Quote(c: char) {
    c == '\'' || c == '"'
  }

  predicate InLine(c: char) {
    c != '\n'
  }

  function Unquoted(quote: char): char -> bool {
    c => c != quote
  }

  predicate Printable(value: string) {
    forall c <- value :: '!' <= c <= '~' || Space(c)
  }

  /** The length of the longest prefix of `s` whose characters satisfy `p`. */
  ghost function Run(s: string, p: char -> bool): (n: nat)
    ensures n <= |s|
    ensures forall i | 0 <= i < n :: p(s[i])
    ensures n < |s| ==> !p(s[n])
  {
    RunExists(s, p);
    var n :| IsRun(s, p, n);
    n
  }

  ghost predicate IsRun(s: string, p: char -> bool, n: nat) {
    && n <= |s|
    && (forall i | 0 <= i < n :: p(s[i]))
    && (n < |s| ==> !p(s[n]))
  }

  lemma RunExists(s: string, p: char -> bool)
    ensures exists n: nat :: IsRun(s, p, n)
  {
    var n := 0;
    while n < |s| && p(s[n])
      invariant n <= |s| && forall i | 0 <= i < n :: p(s[i])
    {
      n := n + 1;
    }
    assert IsRun(s, p, n);
  }

  ghost function Skip(s: string, p: char -> bool): (rest: string)
    ensures |rest| <= |s|
    ensures rest != "" ==> !p(rest[0])
    ensures s != "" && p(s[0]) ==> |rest| < |s|
  {
    s[Run(s, p)..]
  }

  /** Drop trailing white space. */
  function TrimEnd(s: string): (r: string)
    ensures r <= s
    ensures r != "" ==> !Space(r[|r| - 1])
    ensures forall i | |r| <= i < |s| :: Space(s[i])
  {
    if s != "" && Space(s[|s| - 1]) then TrimEnd(s[..|s| - 1]) else s
  }

  ghost predicate All(s: string, p: char -> bool) {
    forall c <- s :: p(c)
  }

  /** `next` does not extend a run of `p`. */
  ghost predicate Stops(next: string, p: char -> bool) {
    next == "" || !p(next[0])
  }

  lemma RunOf(run: string, next: string, p: char -> bool)
    requires All(run, p) && Stops(next, p)
    ensures Run(run + next, p) == |run|
    ensures (run + next)[..|run|] == run && Skip(run + next, p) == next
  {
    assert forall i | 0 <= i < |run| :: (run + next)[i] == run[i] && run[i] in run;
    assert next != "" ==> (run + next)[|run|] == next[0];
  }

  /** Where no run starts there is nothing to skip. */
  lemma SkipNone(s: string, p: char -> bool)
    requires Stops(s, p)
    ensures Run(s, p) == 0 && Skip(s, p) == s
  {
    RunOf("", s, p);
    assert "" + s == s;
  }

  lemma RunAt(text: string, start: nat, at: nat, p: char -> bool)
    requires start <= at <= |text|
    requires forall i | start <= i < at :: p(text[i])
    requires at < |text| ==> !p(text[at])
    ensures Run(text[start..], p) == at - start
    ensures Skip(text[start..], p) == text[at..]
  {
    assert text[start..] == text[start..at] + text[at..];
    RunOf(text[start..at], text[at..], p);
  }

  /** A scan from `start` to `at` splits the text from `start` at the end of its run. */
  lemma RunSplit(text: string, start: nat, at: nat, p: char -> bool)
    requires start <= at <= |text|
    requires forall i | start <= i < at :: p(text[i])
    requires at < |text| ==> !p(text[at])
    ensures var s := text[start..]; var n := Run(s, p); text[start..at] == s[..n] && text[at..] == s[n..]
  {
    hide Run;
    RunAt(text, start, at, p);
    var s := text[start..];
    assert s[..at - start] == text[start..at];
    assert s[at - start..] == text[at..];
  }

  lemma SkipPrefix(run: string, s: string, p: char -> bool)
    requires All(run, p)
    ensures Skip(run + s, p) == Skip(s, p)
  {
    var n := Run(s, p);
    assert run + s == (run + s[..n]) + s[n..];
    RunOf(run + s[..n], s[n..], p);
  }

  lemma {:induction false} TrimOf(body: string, trail: string)
    requires body != "" ==> !Space(body[|body| - 1])
    requires All(trail, Space)
    ensures TrimEnd(body + trail) == body
  {
    var s := body + trail;
    if trail == "" {
      assert s == body;
    } else {
      var last := |trail| - 1;
      assert trail[last] in trail && forall c <- trail[..last] :: c in trail;
      assert s[|s| - 1] == trail[last] && s[..|s| - 1] == body + trail[..last];
      TrimOf(body, trail[..last]);
    }
  }
}
