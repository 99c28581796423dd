/** The two pieces of SQL text handling the filesystem relies on: building
    an IN clause with one parameter mark per item, and SQLite's replace(). */
module Sql {

  /** The placeholder a statement with an IN clause carries. */
  const IN_ITEMS := "%(in_items)s"

  function Count(c: char, s: string): nat {
    if s == [] then 0 else (if s[0] == c then 1 else 0) + Count(c, s[1..])
  }

  lemma {:induction false} CountAppend(c: char, x: string, y: string)
    ensures Count(c, x + y) == Count(c, x) + Count(c, y)
  {
    if x != [] {
      assert (x + y)[0] == x[0] && (x + y)[1..] == x[1..] + y;
      CountAppend(c, x[1..], y);
    } else {
      assert x + y == y;
    }
  }

  /** n parameter marks separated by ", ". */
  function Marks(n: nat): (r: string)
    ensures Count('?', r) == n
    ensures |r| == if n == 0 then 0 else 3 * n - 2
  {
    if n == 0 then ""
    else if n == 1 then "?"
    else
      CountAppend('?', Marks(n - 1), ", ?");
      Marks(n - 1) + ", ?"
  }

  /** "(" + ", ".join("?" for each item) + ")". */
  function Placeholders(n: nat): (r: string)
    ensures Count('?', r) == n
  {
    CountAppend('?', "(", Marks(n));
    CountAppend('?', "(" + Marks(n), ")");
    "(" + Marks(n) + ")"
  }

  predicate StartsWith(s: string, p: string) {
    |p| <= |s| && s[..|p|] == p
  }

  /** Every '%' of the statement opens the in_items placeholder: the only
      directive Python's %-formatting is asked to fill here. */
  predicate OnlyInItems(sql: string) {
    forall k :: 0 <= k < |sql| && sql[k] == '%' ==> StartsWith(sql[k..], IN_ITEMS)
  }

  lemma {:induction false} OnlyInItemsSuffix(sql: string, n: nat)
    requires OnlyInItems(sql) && n <= |sql|
    ensures OnlyInItems(sql[n..])
  {
    forall k | 0 <= k < |sql[n..]| && sql[n..][k] == '%' ensures StartsWith(sql[n..][k..], IN_ITEMS) {
      assert sql[n..][k..] == sql[n + k..];
    }
  }

  /** prepare_in: the statement with each in_items placeholder replaced by as
      many parameter marks as there are items. */
  function PrepareIn<T>(sql: string, items: seq<T>): string
    requires OnlyInItems(sql)
    decreases |sql|
  {
    if sql == [] then []
    else if StartsWith(sql, IN_ITEMS) then
      OnlyInItemsSuffix(sql, |IN_ITEMS|);
      Placeholders(|items|) + PrepareIn(sql[|IN_ITEMS|..], items)
    else
      OnlyInItemsSuffix(sql, 1);
      [sql[0]] + PrepareIn(sql[1..], items)
  }

  /** Text without '%' put in front keeps a statement fit for filling. */
  lemma {:induction false} OnlyInItemsPrefix(a: string, b: string)
    requires '%' !in a && OnlyInItems(b)
    ensures OnlyInItems(a + b)
  {
    assert forall k :: 0 <= k < |a| ==> (a + b)[k] == a[k] && a[k] in a;
    forall k | 0 <= k < |a + b| && (a + b)[k] == '%' ensures StartsWith((a + b)[k..], IN_ITEMS) {
      assert (a + b)[k..] == b[k - |a|..];
    }
  }

  lemma {:induction false} PrepareInPlain<T>(a: string, b: string, items: seq<T>)
    requires '%' !in a && OnlyInItems(b)
    ensures OnlyInItems(a + b)
    ensures PrepareIn(a + b, items) == a + PrepareIn(b, items)
    decreases |a|
  {
    OnlyInItemsPrefix(a, b);
    if a != [] {
      var s := a + b;
      assert s[0] == a[0] && a[0] in a;
      assert s[1..] == a[1..] + b;
      NotStartsWith(s, IN_ITEMS);
      assert a == [a[0]] + a[1..];
      PrepareInPlain(a[1..], b, items);
      calc {
        PrepareIn(s, items);
        [a[0]] + PrepareIn(a[1..] + b, items);
        [a[0]] + (a[1..] + PrepareIn(b, items));
        a + PrepareIn(b, items);
      }
    } else {
      assert a + b == b;
    }
  }

  lemma {:induction false} NotStartsWith(s: string, p: string)
    requires p != [] && (s == [] || s[0] != p[0])
    ensures !StartsWith(s, p)
  {
    if |p| <= |s| { assert s[..|p|][0] == s[0]; }
  }

  /** A statement without directives comes out as it went in. */
  lemma {:induction false} PrepareInNoDirective<T>(b: string, items: seq<T>)
    requires '%' !in b
    ensures OnlyInItems(b) && PrepareIn(b, items) == b
  {
    assert OnlyInItems([]);
    PrepareInPlain(b, [], items);
    assert b + [] == b;
  }

  lemma {:induction false} PrepareInPlaceholder<T>(b: string, items: seq<T>)
    requires OnlyInItems(b)
    ensures OnlyInItems(IN_ITEMS + b)
    ensures PrepareIn(IN_ITEMS + b, items) == Placeholders(|items|) + PrepareIn(b, items)
  {
    var s := IN_ITEMS + b;
    assert '%' !in IN_ITEMS[1..];
    forall k | 0 < k < |IN_ITEMS| ensures s[k] != '%' {
      assert s[k] == IN_ITEMS[1..][k - 1];
    }
    forall k | 0 <= k < |s| && s[k] == '%' ensures StartsWith(s[k..], IN_ITEMS) {
      if k >= |IN_ITEMS| {
        assert s[k..] == b[k - |IN_ITEMS|..];
      } else {
        assert s[k..] == s;
      }
    }
    assert s[..|IN_ITEMS|] == IN_ITEMS;
    assert s[|IN_ITEMS|..] == b;
  }

  /** Filling a statement whose only directive is one in_items placeholder
      puts "(?, ..., ?)" in its place and leaves the rest of the text as it
      was. */
  lemma {:induction false} PrepareInSplices<T>(a: string, b: string, items: seq<T>)
    requires '%' !in a && '%' !in b
    ensures OnlyInItems(a + IN_ITEMS + b)
    ensures PrepareIn(a + IN_ITEMS + b, items) == a + Placeholders(|items|) + b
  {
    PrepareInNoDirective(b, items);
    PrepareInPlaceholder(b, items);
    PrepareInPlain(a, IN_ITEMS + b, items);
    assert a + IN_ITEMS + b == a + (IN_ITEMS + b);
    assert a + (Placeholders(|items|) + b) == a + Placeholders(|items|) + b;
  }

  /** The filled statement carries one parameter mark per item more than the
      text around the placeholder: as many as the parameters passed with it
      when that text holds the marks for the other parameters. */
  lemma {:induction false} PrepareInMarkCount<T>(a: string, b: string, items: seq<T>)
    requires '%' !in a && '%' !in b
    ensures OnlyInItems(a + IN_ITEMS + b)
    ensures Count('?', PrepareIn(a + IN_ITEMS + b, items)) == Count('?', a) + |items| + Count('?', b)
  {
    PrepareInSplices(a, b, items);
    var p := Placeholders(|items|);
    CountAppend('?', a, p);
    CountAppend('?', a + p, b);
  }

  /** SQLite's replace(s, pat, with): every occurrence of pat, scanning from
      the left without overlaps, is replaced by with. */
  function Replace(s: string, pat: string, with: string): string
    requires pat != []
    decreases |s|
  {
    if s == [] then []
    else if StartsWith(s, pat) then with + Replace(s[|pat|..], pat, with)
    else [s[0]] + Replace(s[1..], pat, with)
  }

  /** pat appears somewhere in s. */
  predicate Occurs(pat: string, s: string)
    decreases |s|
  {
    StartsWith(s, pat) || (s != [] && Occurs(pat, s[1..]))
  }

  /** A text without the pattern is left as it is. */
  lemma {:induction false} ReplaceAbsent(s: string, pat: string, with: string)
    requires pat != [] && !Occurs(pat, s)
    ensures Replace(s, pat, with) == s
    decreases |s|
  {
    if s != [] {
      ReplaceAbsent(s[1..], pat, with);
      assert s == [s[0]] + s[1..];
    }
  }

  /** Removing every "file://" from a base URI that starts with the scheme
      and has no other occurrence of it leaves the path after the scheme. */
  lemma {:induction false} StripScheme(path: string)
    requires !Occurs("file://", path)
    ensures Replace("file://" + path, "file://", "") == path
  {
    var s := "file://" + path;
    assert StartsWith(s, "file://");
    assert s[|"file://"|..] == path;
    ReplaceAbsent(path, "file://", "");
  }
}
