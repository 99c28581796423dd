/** The calls that cls_cached memoizes, and the string key the decorator
    builds for each of them. The filesystem's cache is keyed by the calls
    themselves; the string keys are modelled to show where they collide. */
module CacheKey {
  import opened Options

  /** One call of a memoized operation with its positional arguments. */
  datatype Call =
    | TagChildsOf(parent: int)
    | TagNamesOf(parentTag: Option<int>)
    | EncodedTagNames
    | TagToIdOf(name: string)
    | FileNamesOf(tag: Option<int>)
    | EncodedFileNames
    | LinkPathOf(tagName: string, fileName: string)
    | GetAttrOf(path: string)
    | ReadLinkOf(linkPath: string)
    | AccessOf(accessPath: string, mode: int)
    | ReadDirOf(dirPath: string, offset: int)

  /** The decimal digits of n. */
  function Digits(n: nat): (r: string)
    ensures r != [] && forall ch | ch in r :: '0' <= ch <= '9'
    decreases n
  {
    if n < 10 then [('0' as int + n) as char]
    else Digits(n / 10) + [('0' as int + n % 10) as char]
  }

  /** str() of an integer. */
  function Decimal(n: int): (r: string)
    ensures r != [] && '_' !in r
  {
    if n < 0 then ['-'] + Digits(-n) else Digits(n)
  }

  /** str() of a tag id that may be missing. */
  function Str(t: Option<int>): (r: string)
    ensures r != [] && '_' !in r
  {
    match t
    case None => "None"
    case Some(n) => Decimal(n)
  }

  /** sep.join(parts). */
  function JoinWith(sep: char, parts: seq<string>): string {
    if parts == [] then ""
    else if |parts| == 1 then parts[0]
    else parts[0] + [sep] + JoinWith(sep, parts[1..])
  }

  /** filter(None, values) on strings: the non-empty ones, in order. */
  function NonEmpty(values: seq<string>): (r: seq<string>)
    ensures forall v :: v in r <==> v in values && v != ""
  {
    if values == [] then []
    else
      assert forall v :: v in values <==> v == values[0] || v in values[1..];
      (if values[0] != "" then [values[0]] else []) + NonEmpty(values[1..])
  }

  /** The key cls_cached builds: the prefix, the str() of each positional
      argument and each non-empty keyword value, joined with '_'. */
  function SourceKey(prefix: string, args: seq<string>, kwargs: seq<string>): string {
    JoinWith('_', [prefix] + args + NonEmpty(kwargs))
  }

  /** The key the source builds for each call the filesystem makes; every
      call passes its arguments by position. */
  function KeyOf(c: Call): string {
    match c
    case TagChildsOf(p) => SourceKey("tag_childs", [Decimal(p)], [])
    case TagNamesOf(p) => SourceKey("tag_names", [Str(p)], [])
    case EncodedTagNames => SourceKey("encoded_tags_cache", [], [])
    case TagToIdOf(n) => SourceKey("tag_to_id", [n], [])
    case FileNamesOf(t) => SourceKey("file_names", [Str(t)], [])
    case EncodedFileNames => SourceKey("encoded_file_names", [], [])
    case LinkPathOf(t, n) => SourceKey("link_path", [t, n], [])
    case GetAttrOf(p) => SourceKey("getattr", [p], [])
    case ReadLinkOf(p) => SourceKey("readlink", [p], [])
    case AccessOf(p, m) => SourceKey("access", [p, Decimal(m)], [])
    case ReadDirOf(p, o) => SourceKey("readdir", [p, Decimal(o)], [])
  }

  lemma {:induction false} JoinWithCons(sep: char, first: string, rest: seq<string>)
    requires rest != []
    ensures JoinWith(sep, [first] + rest) == first + [sep] + JoinWith(sep, rest)
  {
    assert ([first] + rest)[1..] == rest;
  }

  /** Two-part texts with one separator each split the same way. */
  lemma {:induction false} SplitAtSeparator(sep: char, a: string, b: string, x: string, y: string)
    requires sep !in a && sep !in b && sep !in x && sep !in y
    requires a + [sep] + b == x + [sep] + y
    ensures a == x && b == y
  {
    var s := a + [sep] + b;
    var u := x + [sep] + y;
    assert forall k :: 0 <= k < |a| ==> s[k] == a[k] && a[k] in a;
    assert forall k :: 0 <= k < |x| ==> u[k] == x[k] && x[k] in x;
    assert s[|a|] == sep && u[|x|] == sep;
    assert |a| == |x|;
    assert a == s[..|a|] && x == u[..|x|];
    assert b == s[|a| + 1..] && y == u[|x| + 1..];
  }

  /** The key of a link_path call is the prefix, the tag name and the file
      name with a '_' between each. */
  lemma {:induction false} LinkPathKey(t: string, n: string)
    ensures KeyOf(LinkPathOf(t, n)) == "link_path_" + t + "_" + n
  {
    assert NonEmpty([]) == [];
    assert ["link_path"] + [t, n] + [] == ["link_path"] + [t, n];
    JoinWithCons('_', "link_path", [t, n]);
    JoinWithCons('_', t, [n]);
    assert [t, n][1..] == [n];
  }

  /** Without a '_' in the names, the key of a link_path call determines
      the call. */
  lemma {:induction false} LinkPathKeyInjective(t: string, n: string, t': string, n': string)
    requires '_' !in t && '_' !in n && '_' !in t' && '_' !in n'
    requires KeyOf(LinkPathOf(t, n)) == KeyOf(LinkPathOf(t', n'))
    ensures t == t' && n == n'
  {
    LinkPathKey(t, n);
    LinkPathKey(t', n');
    var p := "link_path_";
    assert p + t + "_" + n == p + (t + "_" + n);
    assert p + t' + "_" + n' == p + (t' + "_" + n');
    assert (p + (t + "_" + n))[|p|..] == t + "_" + n;
    assert (p + (t' + "_" + n'))[|p|..] == t' + "_" + n';
    SplitAtSeparator('_', t, n, t', n');
  }

  /** With a '_' in a name, two different link_path calls get one key. */
  lemma LinkPathKeysCollide()
    ensures LinkPathOf("a_b", "c") != LinkPathOf("a", "b_c")
    ensures KeyOf(LinkPathOf("a_b", "c")) == KeyOf(LinkPathOf("a", "b_c"))
  {
    LinkPathKey("a_b", "c");
    LinkPathKey("a", "b_c");
  }
}
