/** Parsing of a container image reference such as "nvcr.io/nvidia/tensorrt:24.03-py3"
    into a repository and a tag (parse_image_uri in nvidia/ngc_access_test.py). */
module ImageRef {

  const HttpsScheme: string := "https://"
  const HttpScheme: string := "http://"
  const RegistryHost: string := "nvcr.io/"
  const DefaultTag: string := "latest"
  const TagSeparator: char := ':'

  /** A parsed image reference. */
  datatype Reference = Reference(repo: string, tag: string)

  /** Number of occurrences of c in s. */
  function Count(s: string, c: char): nat
  {
    if |s| == 0 then 0 else (if s[0] == c then 1 else 0) + Count(s[1..], c)
  }

  /** Index of the first occurrence of c in s, or |s| when there is none. */
  function IndexOf(s: string, c: char): (i: nat)
    ensures i <= |s|
    ensures forall k :: 0 <= k < i ==> s[k] != c
    ensures i < |s| ==> s[i] == c
  {
    if |s| == 0 then 0 else if s[0] == c then 0 else 1 + IndexOf(s[1..], c)
  }

  /** Python's str.split(sep) with an explicit separator: split at EVERY occurrence.
      "".split(":") is [""], and a leading, trailing or doubled separator yields empty parts. */
  function Split(s: string, sep: char): (parts: seq<string>)
    ensures |parts| >= 1
    ensures forall k :: 0 <= k < |parts| ==> sep !in parts[k]
    decreases |s|
  {
    var i := IndexOf(s, sep);
    if i == |s| then [s] else [s[..i]] + Split(s[i + 1..], sep)
  }

  /** Python's sep.join(parts), the inverse of Split. Joining separator-free parts puts
      exactly one separator between each pair of neighbours and nowhere else. */
  function Join(parts: seq<string>, sep: char): (s: string)
    ensures |parts| > 0 && (forall k :: 0 <= k < |parts| ==> sep !in parts[k]) ==>
      Count(s, sep) == |parts| - 1
  {
    if |parts| == 0 then ""
    else
      CountAbsent(parts[0], sep);
      if |parts| == 1 then parts[0]
      else
        var rest := Join(parts[1..], sep);
        CountConcat(parts[0] + [sep], rest, sep);
        CountConcat(parts[0], [sep], sep);
        assert Count([sep], sep) == 1 by { assert [sep][1..] == []; }
        parts[0] + [sep] + rest
  }

  /** s with the leading prefix p removed once, when s starts with p. */
  function StripPrefix(s: string, p: string): (r: string)
    ensures p <= s ==> p + r == s
    ensures !(p <= s) ==> r == s
  {
    if p <= s then s[|p|..] else s
  }

  /** The three conditional prefix removals, in the source's order. What is left is always
      a suffix of the input. */
  function Stripped(uri: string): (r: string)
    ensures |r| <= |uri|
    ensures r == uri[|uri| - |r|..]
  {
    StripPrefix(StripPrefix(StripPrefix(uri, HttpsScheme), HttpScheme), RegistryHost)
  }

  /** parse_image_uri: (repo, tag) when the stripped text splits into exactly two parts,
      otherwise the whole stripped text with the tag "latest". */
  function ParseImageUri(uri: string): (r: Reference)
    ensures Count(Stripped(uri), TagSeparator) == 1 ==>
      r.repo + [TagSeparator] + r.tag == Stripped(uri) &&
      TagSeparator !in r.repo && TagSeparator !in r.tag
    ensures Count(Stripped(uri), TagSeparator) != 1 ==> r == Reference(Stripped(uri), DefaultTag)
  {
    var rest := Stripped(uri);
    var parts := Split(rest, TagSeparator);
    SplitLength(rest, TagSeparator);
    JoinSplit(rest, TagSeparator);
    if |parts| == 2 then
      assert Join(parts[1..], TagSeparator) == parts[1];
      Reference(parts[0], parts[1])
    else Reference(rest, DefaultTag)
  }

  // ---------------------------------------------------------------------------
  // Split and Join
  // ---------------------------------------------------------------------------

  /** Joining the parts of a split gives back the original text. */
  lemma {:induction false} JoinSplit(s: string, sep: char)
    ensures Join(Split(s, sep), sep) == s
    decreases |s|
  {
    var i := IndexOf(s, sep);
    var parts := Split(s, sep);
    if i == |s| {
      assert parts == [s];
    } else {
      var tail := Split(s[i + 1..], sep);
      assert parts == [s[..i]] + tail;
      assert parts[0] == s[..i] && parts[1..] == tail;
      JoinSplit(s[i + 1..], sep);
      assert Join(parts, sep) == s[..i] + [sep] + Join(tail, sep);
      assert s == s[..i] + [sep] + s[i + 1..];
    }
  }

  lemma {:induction false} CountConcat(a: string, b: string, c: char)
    ensures Count(a + b, c) == Count(a, c) + Count(b, c)
  {
    if |a| == 0 {
      assert a + b == b;
    } else {
      CountConcat(a[1..], b, c);
      assert (a + b)[0] == a[0];
      assert (a + b)[1..] == a[1..] + b;
    }
  }

  lemma {:induction false} CountAbsent(s: string, c: char)
    ensures c !in s ==> Count(s, c) == 0
  {
    if |s| > 0 && c !in s {
      assert s[0] != c;
      CountAbsent(s[1..], c);
    }
  }

  /** A split has one part more than there are separators. */
  lemma {:induction false} SplitLength(s: string, sep: char)
    ensures |Split(s, sep)| == Count(s, sep) + 1
    decreases |s|
  {
    var i := IndexOf(s, sep);
    if i == |s| {
      assert sep !in s;
      CountAbsent(s, sep);
    } else {
      SplitLength(s[i + 1..], sep);
      assert s == s[..i] + ([sep] + s[i + 1..]);
      assert sep !in s[..i];
      CountAbsent(s[..i], sep);
      CountConcat(s[..i], [sep] + s[i + 1..], sep);
      CountConcat([sep], s[i + 1..], sep);
    }
  }

  /** The first separator of a + [sep] + b is the one after a when a has none. */
  lemma IndexOfAfterPrefix(a: string, b: string, sep: char)
    requires sep !in a
    ensures IndexOf(a + [sep] + b, sep) == |a|
  {
    var s := a + [sep] + b;
    assert s[|a|] == sep;
    assert forall k :: 0 <= k < |a| ==> s[k] == a[k];
  }

  /** Split is the ONLY way to cut s into separator-free parts that join back to s,
      so it is fully determined by JoinSplit and its own ensures. */
  lemma {:induction false} SplitUnique(parts: seq<string>, s: string, sep: char)
    requires |parts| >= 1
    requires forall k :: 0 <= k < |parts| ==> sep !in parts[k]
    requires Join(parts, sep) == s
    ensures Split(s, sep) == parts
    decreases |parts|
  {
    if |parts| == 1 {
      assert s == parts[0];
      assert IndexOf(s, sep) == |s|;
    } else {
      var rest := Join(parts[1..], sep);
      assert s == parts[0] + [sep] + rest;
      IndexOfAfterPrefix(parts[0], rest, sep);
      var i := |parts[0]|;
      assert s[..i] == parts[0];
      assert s[i + 1..] == rest;
      SplitUnique(parts[1..], rest, sep);
      assert parts == [parts[0]] + parts[1..];
    }
  }

  // ---------------------------------------------------------------------------
  // Prefix stripping
  // ---------------------------------------------------------------------------

  /** Input that starts with none of the three prefixes is left as it is. */
  lemma NoPrefixUnchanged(uri: string)
    requires !(HttpsScheme <= uri) && !(HttpScheme <= uri) && !(RegistryHost <= uri)
    ensures Stripped(uri) == uri
  {
  }

  /** Scheme and registry host are removed together. */
  lemma SchemeAndHostStripped(scheme: string, x: string)
    requires scheme == HttpsScheme || scheme == HttpScheme
    ensures Stripped(scheme + RegistryHost + x) == x
  {
    var u := scheme + RegistryHost + x;
    assert scheme <= u;
    if scheme == HttpsScheme {
      assert u[|HttpsScheme|..] == RegistryHost + x;
      assert !(HttpScheme <= RegistryHost + x) by { assert (RegistryHost + x)[0] != HttpScheme[0]; }
      assert (RegistryHost + x)[|RegistryHost|..] == x;
    } else {
      assert !(HttpsScheme <= u) by { assert u[4] != HttpsScheme[4]; }
      assert u[|HttpScheme|..] == RegistryHost + x;
      assert (RegistryHost + x)[|RegistryHost|..] == x;
    }
  }

  /** Both schemes present, https first: both are removed, in that order. */
  lemma BothSchemesStripped(x: string)
    ensures Stripped(HttpsScheme + HttpScheme + x) == StripPrefix(x, RegistryHost)
  {
    var s := HttpsScheme + HttpScheme + x;
    var t := HttpScheme + x;
    assert s == HttpsScheme + t;
    assert StripPrefix(s, HttpsScheme) == t;
    assert StripPrefix(t, HttpScheme) == x;
  }

  /** Both schemes present, http first: the https check has already passed, so only
      "http://" is removed and the leftover "https://" keeps its colon. */
  lemma SchemesInWrongOrder(x: string)
    ensures Stripped(HttpScheme + HttpsScheme + x) == HttpsScheme + x
  {
    var u := HttpScheme + HttpsScheme + x;
    var t := HttpsScheme + x;
    assert u == HttpScheme + t;
    assert !(HttpsScheme <= u) by { assert u[4] != HttpsScheme[4]; }
    assert StripPrefix(u, HttpsScheme) == u;
    assert StripPrefix(u, HttpScheme) == t;
    assert !(RegistryHost <= t) by { assert t[0] != RegistryHost[0]; }
    assert StripPrefix(t, RegistryHost) == t;
  }

  /** "https://" is removed at most once: a doubled scheme keeps one copy. */
  lemma HttpsStrippedOnce(x: string)
    ensures Stripped(HttpsScheme + HttpsScheme + x) == HttpsScheme + x
  {
    var s := HttpsScheme + HttpsScheme + x;
    var t := HttpsScheme + x;
    assert s == HttpsScheme + t;
    assert StripPrefix(s, HttpsScheme) == t;
    assert !(HttpScheme <= t) by { assert t[4] != HttpScheme[4]; }
    assert StripPrefix(t, HttpScheme) == t;
    assert !(RegistryHost <= t) by { assert t[0] != RegistryHost[0]; }
    assert StripPrefix(t, RegistryHost) == t;
  }

  /** "http://" is removed at most once: a doubled scheme keeps one copy. */
  lemma HttpStrippedOnce(x: string)
    ensures Stripped(HttpScheme + HttpScheme + x) == HttpScheme + x
  {
    var s := HttpScheme + HttpScheme + x;
    var t := HttpScheme + x;
    assert s == HttpScheme + t;
    assert !(HttpsScheme <= s) by { assert s[4] != HttpsScheme[4]; }
    assert StripPrefix(s, HttpsScheme) == s;
    assert StripPrefix(s, HttpScheme) == t;
    assert !(RegistryHost <= t) by { assert t[0] != RegistryHost[0]; }
    assert StripPrefix(t, RegistryHost) == t;
  }

  /** "nvcr.io/" is removed at most once: a doubled host keeps one copy. */
  lemma HostStrippedOnce(x: string)
    ensures Stripped(RegistryHost + RegistryHost + x) == RegistryHost + x
  {
    var s := RegistryHost + RegistryHost + x;
    var t := RegistryHost + x;
    assert s == RegistryHost + t;
    assert !(HttpsScheme <= s) by { assert s[0] != HttpsScheme[0]; }
    assert StripPrefix(s, HttpsScheme) == s;
    assert !(HttpScheme <= s) by { assert s[0] != HttpScheme[0]; }
    assert StripPrefix(s, HttpScheme) == s;
    assert StripPrefix(s, RegistryHost) == t;
  }

  // ---------------------------------------------------------------------------
  // The parse result
  // ---------------------------------------------------------------------------

  /** Exactly one colon after stripping: repo and tag are the text before and after it. */
  lemma ParseOneColon(uri: string)
    requires Count(Stripped(uri), TagSeparator) == 1
    ensures var rest, i := Stripped(uri), IndexOf(Stripped(uri), TagSeparator);
      i < |rest| && ParseImageUri(uri) == Reference(rest[..i], rest[i + 1..])
  {
    var rest := Stripped(uri);
    var i := IndexOf(rest, TagSeparator);
    CountAbsent(rest, TagSeparator);
    assert TagSeparator in rest;
    assert i < |rest|;
    var r := ParseImageUri(uri);
    assert rest == r.repo + [TagSeparator] + r.tag;
    IndexOfAfterPrefix(r.repo, r.tag, TagSeparator);
    assert rest[..i] == r.repo;
    assert rest[i + 1..] == r.tag;
  }

  /** Two or more colons: the tag falls back to "latest" and the repo keeps the colons. */
  lemma ParseManyColons(uri: string)
    requires Count(Stripped(uri), TagSeparator) >= 2
    ensures ParseImageUri(uri).tag == DefaultTag
    ensures TagSeparator in ParseImageUri(uri).repo
  {
    CountAbsent(Stripped(uri), TagSeparator);
  }

  /** A separator-free text is one part. */
  lemma SplitNone(a: string, sep: char)
    requires sep !in a
    ensures Split(a, sep) == [a]
  {
    SplitUnique([a], a, sep);
  }

  /** A text with one separator splits around it. */
  lemma SplitTwo(a: string, b: string, sep: char)
    requires sep !in a && sep !in b
    ensures Split(a + [sep] + b, sep) == [a, b]
  {
    assert [a, b][1..] == [b];
    SplitUnique([a, b], a + [sep] + b, sep);
  }

  /** A text with two separators splits into three parts. */
  lemma SplitThree(a: string, b: string, c: string, sep: char)
    requires sep !in a && sep !in b && sep !in c
    ensures Split(a + [sep] + b + [sep] + c, sep) == [a, b, c]
  {
    assert [a, b, c][1..] == [b, c] && [b, c][1..] == [c];
    assert a + [sep] + b + [sep] + c == a + [sep] + (b + [sep] + c);
    assert Join([b, c], sep) == b + [sep] + c;
    assert Join([a, b, c], sep) == a + [sep] + Join([b, c], sep);
    SplitUnique([a, b, c], a + [sep] + b + [sep] + c, sep);
  }

  /** Only the registry host is removed from text that starts with it. */
  lemma HostOnlyStripped(x: string)
    ensures Stripped(RegistryHost + x) == x
  {
    var u := RegistryHost + x;
    assert !(HttpsScheme <= u) by { assert u[0] != HttpsScheme[0]; }
    assert !(HttpScheme <= u) by { assert u[0] != HttpScheme[0]; }
    assert u[|RegistryHost|..] == x;
  }

  /** The docstring example. */
  lemma DocstringExample()
    ensures ParseImageUri("nvcr.io/nvidia/tensorrt:24.03-py3") == Reference("nvidia/tensorrt", "24.03-py3")
  {
    var a, b := "nvidia/tensorrt", "24.03-py3";
    DocstringSpelling();
    HostOnlyStripped(a + [TagSeparator] + b);
    SplitTwo(a, b, TagSeparator);
  }

  /** Proof step of DocstringExample: the example spelled as host, repo, colon and tag. */
  lemma DocstringSpelling()
    ensures "nvcr.io/nvidia/tensorrt:24.03-py3" == RegistryHost + ("nvidia/tensorrt" + [TagSeparator] + "24.03-py3")
    ensures TagSeparator !in "nvidia/tensorrt" && TagSeparator !in "24.03-py3"
  {
  }

  /** A scheme and host but no tag: the tag defaults to "latest". */
  lemma UntaggedExample()
    ensures ParseImageUri("https://nvcr.io/nvidia/tensorrt") == Reference("nvidia/tensorrt", "latest")
  {
    var a := "nvidia/tensorrt";
    UntaggedSpelling();
    SchemeAndHostStripped(HttpsScheme, a);
    SplitNone(a, TagSeparator);
  }

  /** Proof step of UntaggedExample: the example spelled as scheme, host and repo. */
  lemma UntaggedSpelling()
    ensures "https://nvcr.io/nvidia/tensorrt" == HttpsScheme + RegistryHost + "nvidia/tensorrt"
    ensures TagSeparator !in "nvidia/tensorrt"
  {
  }

  /** No scheme or host: the text is only split. */
  lemma UnprefixedExample()
    ensures ParseImageUri("nvidia/tensorrt:latest") == Reference("nvidia/tensorrt", "latest")
  {
    var uri, a, b := "nvidia/tensorrt:latest", "nvidia/tensorrt", "latest";
    UnprefixedSpelling();
    NoPrefixUnchanged(uri);
    SplitTwo(a, b, TagSeparator);
  }

  /** Proof step of UnprefixedExample: no prefix applies, and the example spelled as repo,
      colon and tag. */
  lemma UnprefixedSpelling()
    ensures var uri := "nvidia/tensorrt:latest";
      !(HttpsScheme <= uri) && !(HttpScheme <= uri) && !(RegistryHost <= uri) &&
      uri == "nvidia/tensorrt" + [TagSeparator] + "latest" &&
      TagSeparator !in "nvidia/tensorrt" && TagSeparator !in "latest"
  {
    var uri := "nvidia/tensorrt:latest";
    assert uri[0] != HttpsScheme[0] && uri[0] != HttpScheme[0] && uri[2] != RegistryHost[2];
  }

  /** A registry port such as "localhost:5000/img:1.0" has two colons, so the whole text
      becomes the repo and the tag falls back to "latest". */
  lemma TwoColonsExample()
    ensures ParseImageUri("localhost:5000/img:1.0") == Reference("localhost:5000/img:1.0", "latest")
  {
    var uri := "localhost:5000/img:1.0";
    TwoColonsSpelling();
    NoPrefixUnchanged(uri);
    SplitThree("localhost", "5000/img", "1.0", TagSeparator);
  }

  /** Proof step of TwoColonsExample: no prefix applies, and the example spelled as three
      colon-free pieces. */
  lemma TwoColonsSpelling()
    ensures var uri := "localhost:5000/img:1.0";
      !(HttpsScheme <= uri) && !(HttpScheme <= uri) && !(RegistryHost <= uri) &&
      uri == "localhost" + [TagSeparator] + "5000/img" + [TagSeparator] + "1.0" &&
      TagSeparator !in "localhost" && TagSeparator !in "5000/img" && TagSeparator !in "1.0"
  {
    var uri := "localhost:5000/img:1.0";
    assert uri[0] != HttpsScheme[0] && uri[0] != HttpScheme[0] && uri[0] != RegistryHost[0];
  }
}
