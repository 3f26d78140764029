/** Content digests and image references, parsed from shorthand to canonical form. */
module References {
  import opened Wrappers
  import opened Bytes
  import opened Strings

  // ---- Digests ----

  const ALGORITHM := "sha256:"

  function PrintDigest(digest: Hash): string {
    ALGORITHM + Hex(digest)
  }

  function ParseDigest(s: string): Option<Hash> {
    if !(ALGORITHM <= s) || |s| - |ALGORITHM| != 64 then None
    else Unhex(s[|ALGORITHM|..])
  }

  /** A digest survives printing, and any spelling of it prints the same. */
  lemma DigestRoundTrip(digest: Hash)
    ensures ParseDigest(PrintDigest(digest)) == Some(digest)
  {
    HexRoundTrip(digest);
    assert PrintDigest(digest)[|ALGORITHM|..] == Hex(digest);
  }

  // ---- Searching text ----

  function Find(s: string, c: char): (at: Option<nat>)
    ensures at == None <==> c !in s
    ensures at.Some? ==> at.value < |s| && s[at.value] == c && c !in s[..at.value]
  {
    if s == "" then None
    else if s[0] == c then Some(0)
    else
      match Find(s[1..], c)
      case None => None
      case Some(i) =>
        assert s[..i + 1] == [s[0]] + s[1..][..i];
        Some(i + 1)
  }

  function FindLast(s: string, c: char): (at: Option<nat>)
    ensures at == None <==> c !in s
    ensures at.Some? ==> at.value < |s| && s[at.value] == c && c !in s[at.value + 1..]
  {
    if s == "" then None
    else
      var last := |s| - 1;
      if s[last] == c then Some(last)
      else
        match FindLast(s[..last], c)
        case None =>
          assert s == s[..last] + [s[last]];
          None
        case Some(i) =>
          assert s[..last][i + 1..] == s[i + 1..last];
          assert s[i + 1..] == s[i + 1..last] + [s[last]];
          Some(i)
  }

  lemma {:induction false} FindAt(a: string, c: char, b: string)
    requires c !in a
    ensures Find(a + [c] + b, c) == Some(|a|)
  {
    var s := a + [c] + b;
    if a == "" {
      assert s[0] == c;
    } else {
      FindAt(a[1..], c, b);
      assert s[0] == a[0] && s[1..] == a[1..] + [c] + b;
    }
  }

  lemma {:induction false} FindLastAt(a: string, c: char, b: string)
    requires c !in b
    ensures FindLast(a + [c] + b, c) == Some(|a|)
  {
    var s := a + [c] + b;
    var last := |s| - 1;
    if b == "" {
      assert s[last] == c;
    } else {
      FindLastAt(a, c, b[..|b| - 1]);
      assert s[last] == b[|b| - 1] && s[..last] == a + [c] + b[..|b| - 1];
    }
  }

  /** The text after the last slash. */
  function LastPart(s: string): string {
    match FindLast(s, '/') case None => s case Some(p) => s[p + 1..]
  }

  lemma LastPartConcat(a: string, b: string)
    ensures LastPart(a + "/" + b) == LastPart(b)
  {
    var s := a + "/" + b;
    match FindLast(b, '/')
    case None =>
      FindLastAt(a, '/', b);
      assert s[|a| + 1..] == b;
    case Some(p) =>
      assert s == (a + "/" + b[..p]) + ['/'] + b[p + 1..];
      FindLastAt(a + "/" + b[..p], '/', b[p + 1..]);
      assert s[|a + "/" + b[..p]| + 1..] == b[p + 1..];
  }

  // ---- References ----

  datatype Kind = Tag(tag: string) | Digest(digest: Hash)

  datatype Reference = Reference(registry: string, repo: string, kind: Kind)

  predicate LooksLikeRegistry(part: string) {
    part != "." && part != ".." && ('.' in part || ':' in part || part == "localhost")
  }

  predicate ValidComponent(part: string) {
    part != "" && part != "." && part != ".." && '\0' !in part && '\\' !in part
  }

  predicate Alphanumeric(c: char) {
    '0' <= c <= '9' || 'A' <= c <= 'Z' || 'a' <= c <= 'z'
  }

  predicate ValidTag(tag: string) {
    && 0 < |tag| <= 128
    && (Alphanumeric(tag[0]) || tag[0] == '_')
    && forall i | 0 < i < |tag| :: Alphanumeric(tag[i]) || tag[i] == '.' || tag[i] == '_' || tag[i] == '-'
  }

  predicate Uppercase(c: char) {
    'A' <= c <= 'Z'
  }

  predicate ValidRepo(repo: string) {
    && (forall c <- repo :: !Uppercase(c))
    && forall part <- Split(repo, '/') :: ValidComponent(part)
  }

  /** Registry and repository of a name without tag or digest. */
  function SplitName(name: string): (string, string) {
    match Find(name, '/')
    case None => ("docker.io", "library/" + name)
    case Some(slash) =>
      if LooksLikeRegistry(name[..slash]) then (name[..slash], name[slash + 1..])
      else ("docker.io", name)
  }

  function Complete(name: string, kind: Kind): Option<Reference> {
    var (registry, repo) := SplitName(name);
    if !ValidRepo(repo) || (kind.Tag? && !ValidTag(kind.tag)) then None
    else Some(Reference(registry, repo, kind))
  }

  function Parse(s: string): Option<Reference> {
    if s == "" || s[0] == '/' || s[0] == '\\' then None
    else match Find(s, '@')
      case Some(at) =>
        var digest :- ParseDigest(s[at + 1..]);
        Complete(s[..at], Digest(digest))
      case None => Tagged(s)
  }

  /** A reference without digest: its tag follows a colon in the last component. */
  function Tagged(s: string): Option<Reference> {
    var from := Last(s);
    match Find(s[from..], ':')
    case Some(colon) => Complete(s[..from + colon], Tag(s[from + colon + 1..]))
    case None => Complete(s, Tag("latest"))
  }

  /** Where the last component starts. */
  function Last(s: string): (from: nat)
    ensures from <= |s|
  {
    match FindLast(s, '/') case None => 0 case Some(p) => p + 1
  }

  function Print(r: Reference): string {
    r.registry + "/" + r.repo + (match r.kind case Tag(tag) => ":" + tag case Digest(digest) => "@" + PrintDigest(digest))
  }

  // ---- Canonical references ----

  /** What every parsed reference satisfies, and what is needed to print it unambiguously. */
  predicate Canonical(r: Reference) {
    && LooksLikeRegistry(r.registry) && '/' !in r.registry && '@' !in r.registry && r.registry[0] != '\\'
    && ValidRepo(r.repo) && '@' !in r.repo
    && (r.kind.Tag? ==> ValidTag(r.kind.tag) && ':' !in LastPart(r.repo))
  }

  lemma NamePrinted(registry: string, repo: string)
    requires LooksLikeRegistry(registry) && '/' !in registry
    ensures SplitName(registry + "/" + repo) == (registry, repo)
  {
    FindAt(registry, '/', repo);
    var name := registry + "/" + repo;
    assert name[..|registry|] == registry && name[|registry| + 1..] == repo;
  }

  /** A canonical reference parses back from its printed form. */
  lemma CanonicalRoundTrip(r: Reference)
    requires Canonical(r)
    ensures Parse(Print(r)) == Some(r)
  {
    hide Parse, ValidRepo, ValidTag, PrintDigest, LastPart, LooksLikeRegistry;
    ShorthandMeaning(Some(r.registry), r.repo, Some(r.kind));
    assert Print(r) == r.registry + "/" + r.repo + Suffix(Some(r.kind));
  }

  lemma TagCharacters(tag: string)
    requires ValidTag(tag)
    ensures '@' !in tag && '/' !in tag
  {
  }

  lemma ParsedTagged(s: string)
    requires s != "" && s[0] != '/' && s[0] != '\\' && '@' !in s
    ensures Parse(s) == Tagged(s)
  {
    hide Tagged, Find;
  }

  /** Text with a slash ends, after its last one, with its last part. */
  lemma Ending(s: string) returns (p: nat)
    requires '/' in s
    ensures p < |s| && s == s[..p] + ['/'] + LastPart(s) && '/' !in LastPart(s)
  {
    p := FindLast(s, '/').value;
  }

  lemma NotIn(a: string, b: string, c: char)
    requires c !in a && c !in b
    ensures c !in a + b
  {
  }

  lemma TagParses(dir: string, last: string, name: string, tag: string, s: string)
    requires name == dir + ['/'] + last && s == name + [':'] + tag
    requires '/' !in last && ':' !in last && '/' !in tag
    ensures Tagged(s) == Complete(name, Tag(tag))
  {
    hide Complete, Find, FindLast, Tagged, Last;
    var end := last + [':'] + tag;
    assert s == dir + ['/'] + end;
    NotIn(last, [':'], '/');
    NotIn(last + [':'], tag, '/');
    LastAt(dir, end);
    assert s[|dir| + 1..] == end;
    FindAt(last, ':', tag);
    TaggedAt(s, |dir| + 1, |last|, |name|);
    assert s[..|name|] == name && s[|name| + 1..] == tag;
  }

  lemma LastAt(dir: string, end: string)
    requires '/' !in end
    ensures Last(dir + ['/'] + end) == |dir| + 1
  {
    hide FindLast;
    FindLastAt(dir, '/', end);
  }

  lemma TaggedAt(s: string, from: nat, colon: nat, cut: nat)
    requires from == Last(s) && Find(s[from..], ':') == Some(colon) && cut == from + colon
    ensures cut < |s| && Tagged(s) == Complete(s[..cut], Tag(s[cut + 1..]))
  {
    hide Complete, Find, Last;
  }

  /** Whatever parses is canonical. */
  lemma ParsedIsCanonical(s: string)
    requires Parse(s).Some?
    ensures Canonical(Parse(s).value)
  {
    hide ValidRepo, ValidTag, ParseDigest, LooksLikeRegistry, LastPart, Find, FindLast, SplitName;
    match Find(s, '@')
    case Some(at) =>
      NameCanonical(s[..at]);
    case None =>
      var from := Last(s);
      match Find(s[from..], ':')
      case Some(colon) =>
        var name := s[..from + colon];
        LastOfPrefix(s, from, colon);
        assert name[from..] == s[from..][..colon];
        NameCanonical(name);
      case None =>
        NameCanonical(s);
        LastOfPrefix(s, from, |s| - from);
        assert s[..|s|] == s;
  }

  /** Cutting text after its last slash leaves the last slash in place. */
  lemma LastOfPrefix(s: string, from: nat, length: nat)
    requires from == Last(s) && from + length <= |s|
    ensures LastPart(s[..from + length]) == s[from..][..length]
  {
    hide Find, FindLast, LastPart;
    var cut, tail := s[..from + length], s[from..][..length];
    match FindLast(s, '/')
    case None =>
      assert cut == tail;
      LastPartWhole(tail);
    case Some(p) =>
      assert cut == s[..p] + ['/'] + tail;
      LastPartAfter(s[..p], tail);
  }

  lemma LastPartWhole(s: string)
    requires '/' !in s
    ensures LastPart(s) == s
  {
  }

  lemma LastPartAfter(a: string, b: string)
    requires '/' !in b
    ensures LastPart(a + ['/'] + b) == b
  {
    hide Find, FindLast;
    FindLastAt(a, '/', b);
    assert (a + ['/'] + b)[|a| + 1..] == b;
  }

  lemma NameCanonical(name: string)
    requires '@' !in name && (name != "" ==> name[0] != '/' && name[0] != '\\')
    ensures
      var (registry, repo) := SplitName(name);
      && LooksLikeRegistry(registry) && '/' !in registry && '@' !in registry && registry[0] != '\\'
      && '@' !in repo && LastPart(repo) == LastPart(name)
  {
    hide LastPart;
    var docker := "docker.io";
    assert docker[6] == '.' && LooksLikeRegistry(docker);
    match Find(name, '/')
    case None =>
      LastPartConcat("library", name);
      assert "library" + "/" + name == "library/" + name;
    case Some(slash) =>
      assert name == name[..slash] + "/" + name[slash + 1..];
      LastPartConcat(name[..slash], name[slash + 1..]);
  }

  /**
    Canonicalising settles at once: the printed form of any parsed reference
    parses to that same reference, and prints the same again. Canonical
    references are exactly those that parsing yields.
    */
  lemma PrintedReparses(s: string)
    requires Parse(s).Some?
    ensures Parse(Print(Parse(s).value)) == Parse(s)
  {
    hide Parse, Canonical;
    ParsedIsCanonical(s);
    CanonicalRoundTrip(Parse(s).value);
  }

  /** Parsing yields exactly the canonical references. */
  lemma CanonicalExactly(r: Reference)
    ensures Canonical(r) <==> exists s :: Parse(s) == Some(r)
  {
    hide Parse, Canonical;
    if Canonical(r) {
      CanonicalRoundTrip(r);
    }
    forall s | Parse(s) == Some(r)
      ensures Canonical(r)
    {
      ParsedIsCanonical(s);
    }
  }

  // ---- What shorthand stands for ----

  function Suffix(kind: Option<Kind>): string {
    match kind
    case None => ""
    case Some(Tag(tag)) => ":" + tag
    case Some(Digest(digest)) => "@" + PrintDigest(digest)
  }

  /** Tag and digest are split off a name exactly where they were written; without either the tag is "latest". */
  lemma SuffixParses(name: string, kind: Option<Kind>)
    requires name != "" && name[0] != '/' && name[0] != '\\' && '@' !in name
    requires kind == None || kind.value.Tag? ==> ':' !in LastPart(name)
    requires kind.Some? && kind.value.Tag? ==> ValidTag(kind.value.tag)
    ensures Parse(name + Suffix(kind)) == Complete(name, if kind.Some? then kind.value else Tag("latest"))
  {
    hide Complete, LastPart, Parse, ValidTag, PrintDigest;
    match kind
    case None =>
      assert name + "" == name;
      NameParses(name);
    case Some(Tag(tag)) => NameTagParses(name, tag);
    case Some(Digest(digest)) => NameDigestParses(name, digest);
  }

  lemma NameParses(name: string)
    requires name != "" && name[0] != '/' && name[0] != '\\' && '@' !in name && ':' !in LastPart(name)
    ensures Parse(name) == Complete(name, Tag("latest"))
  {
    hide Complete, LastPart, Parse, Tagged;
    ParsedTagged(name);
    UntaggedParses(name);
  }

  lemma NameTagParses(name: string, tag: string)
    requires name != "" && name[0] != '/' && name[0] != '\\' && '@' !in name && ':' !in LastPart(name) && ValidTag(tag)
    ensures Parse(name + (":" + tag)) == Complete(name, Tag(tag))
  {
    hide Complete, LastPart, Parse, Tagged, ValidTag;
    var s := name + (":" + tag);
    TagCharacters(tag);
    NotIn(":", tag, '@');
    NotIn(name, ":" + tag, '@');
    assert s[0] == name[0];
    assert s == name + [':'] + tag;
    ParsedTagged(s);
    if '/' in name {
      var p := Ending(name);
      TagParses(name[..p], LastPart(name), name, tag, s);
    } else {
      LastPartWhole(name);
      PlainTagParses(name, tag, s);
    }
  }

  lemma NameDigestParses(name: string, digest: Hash)
    requires name != "" && name[0] != '/' && name[0] != '\\' && '@' !in name
    ensures Parse(name + ("@" + PrintDigest(digest))) == Complete(name, Digest(digest))
  {
    hide Complete, Find, Tagged, PrintDigest, ParseDigest;
    var text := PrintDigest(digest);
    var s := name + ("@" + text);
    assert s == name + ['@'] + text && s[0] == name[0];
    FindAt(name, '@', text);
    assert s[..|name|] == name && s[|name| + 1..] == text;
    DigestRoundTrip(digest);
  }

  lemma UntaggedParses(s: string)
    requires ':' !in LastPart(s)
    ensures Tagged(s) == Complete(s, Tag("latest"))
  {
    hide Complete, FindLast;
    assert s[0..] == s;
  }

  lemma PlainTagParses(name: string, tag: string, s: string)
    requires s == name + [':'] + tag && '/' !in name && ':' !in name && '/' !in tag
    ensures Tagged(s) == Complete(name, Tag(tag))
  {
    hide Complete, Find, FindLast;
    NotIn(name, [':'], '/');
    NotIn(name + [':'], tag, '/');
    FindAt(name, ':', tag);
    assert Last(s) == 0 && s[0..] == s;
    TaggedAt(s, 0, |name|, |name|);
    assert s[..|name|] == name && s[|name| + 1..] == tag;
  }

  /** The first slash-separated component names a registry. */
  predicate NamesRegistry(repo: string) {
    '/' in repo && LooksLikeRegistry(repo[..Find(repo, '/').value])
  }

  /**
    Shorthand expands as documented: a missing registry is docker.io, a lone image
    there lives in "library", and a missing tag is "latest".
    */
  lemma ShorthandMeaning(registry: Option<string>, repo: string, kind: Option<Kind>)
    requires registry.Some? ==>
               var r := registry.value; LooksLikeRegistry(r) && '/' !in r && '@' !in r && r[0] != '\\'
    requires registry == None ==> repo != "" && repo[0] != '/' && repo[0] != '\\' && !NamesRegistry(repo)
    requires kind == None || kind.value.Tag? ==> ':' !in LastPart(repo)
    requires kind.Some? && kind.value.Tag? ==> ValidTag(kind.value.tag)
    requires '@' !in repo
    ensures
      var written := (if registry == None then "" else registry.value + "/") + repo + Suffix(kind);
      var full := if registry == None && '/' !in repo then "library/" + repo else repo;
      Parse(written) ==
      if !ValidRepo(full) then None
      else Some(Reference(if registry == None then "docker.io" else registry.value, full,
                          if kind == None then Tag("latest") else kind.value))
  {
    hide Find, FindLast, LastPart, Parse, Suffix, ValidRepo, PrintDigest;
    var name := (if registry == None then "" else registry.value + "/") + repo;
    LatestIsValid();
    hide ValidTag;
    if registry == None {
      assert name == repo;
    } else {
      NamePrinted(registry.value, repo);
      LastPartConcat(registry.value, repo);
      assert name == registry.value + "/" + repo && name[0] == registry.value[0];
      NotIn(registry.value, "/", '@');
      NotIn(registry.value + "/", repo, '@');
    }
    SuffixParses(name, kind);
  }

  lemma LatestIsValid()
    ensures ValidTag("latest")
  {
  }
}
