/** Concatenating text, and splitting it at a separator. */
module Strings {

  /** The pieces between separators; splitting "" gives one empty piece. */
  function Split<T(==)>(s: seq<T>, separator: T): (parts: seq<seq<T>>)
    ensures |parts| > 0
  {
    if s == [] then [[]] else Extend(s[0], Split(s[1..], separator), separator)
  }

  function Extend<T(==)>(c: T, parts: seq<seq<T>>, separator: T): (extended: seq<seq<T>>)
    requires |parts| > 0
    ensures |extended| > 0
  {
    if c == separator then [[]] + parts else [[c] + parts[0]] + parts[1..]
  }

  lemma Assoc<T>(a: seq<T>, b: seq<T>, c: seq<T>)
    ensures (a + b) + c == a + (b + c)
  {
  }

  lemma ExtendConcat(c: char, left: seq<string>, right: seq<string>, separator: char)
    requires |left| > 0
    ensures Extend(c, left + right, separator) == Extend(c, left, separator) + right
  {
  }

  lemma {:induction false} SplitJoin(a: string, b: string, separator: char)
    ensures Split(a + [separator] + b, separator) == Split(a, separator) + Split(b, separator)
  {
    var s := a + [separator] + b;
    if a == "" {
      assert s[1..] == b;
    } else {
      SplitJoin(a[1..], b, separator);
      assert s[0] == a[0] && s[1..] == a[1..] + [separator] + b;
      ExtendConcat(a[0], Split(a[1..], separator), Split(b, separator), separator);
    }
  }

  /** Splitting loses only separators. */
  lemma {:induction false} SplitChars(s: string, separator: char)
    ensures forall c <- s :: c == separator || exists part :: part in Split(s, separator) && c in part
  {
    if s != "" {
      SplitChars(s[1..], separator);
      var parts := Split(s[1..], separator);
      var extended := Split(s, separator);
      forall c | c in s && c != separator
        ensures exists part :: part in extended && c in part
      {
        if c == s[0] {
          assert extended[0] in extended && c in extended[0];
        } else {
          assert c in s[1..];
          var i :| 0 <= i < |parts| && c in parts[i];
          if s[0] == separator {
            assert extended[i + 1] == parts[i];
          } else {
            assert i > 0 ==> extended[i] == parts[i];
            assert i == 0 ==> c in extended[0];
            assert extended[i] in extended;
          }
        }
      }
    }
  }
}
