/** The query-string synchroniser of the parameter table: after each edit of a
    parameter row, and after each row removal, the URL becomes the text before
    its first `?`, then `?`, then every row rendered as `key=value` (nothing is
    encoded) and joined with `&`. */
module Query {
  import opened Rows

  /** Index of the first occurrence of `c` in `s`. */
  function FirstIndex(s: string, c: char): (r: nat)
    requires c in s
    ensures r < |s| && s[r] == c && c !in s[..r]
  {
    if s[0] == c then 0
    else
      assert c in s[1..] by { var k :| 0 <= k < |s| && s[k] == c; assert s[1..][k - 1] == c; }
      1 + FirstIndex(s[1..], c)
  }

  /** In `p + [c] + rest` where `p` has no `c`, the first `c` is the one after `p`. */
  lemma FirstIndexAfter(p: string, c: char, rest: string)
    requires c !in p
    ensures c in p + [c] + rest && FirstIndex(p + [c] + rest, c) == |p|
  {
    var s := p + [c] + rest;
    assert s[|p|] == c;
    assert s[..|p|] == p;
  }

  /** JavaScript's `s.split(c)` for a one-character separator. */
  function Split(s: string, c: char): (parts: seq<string>)
    ensures |parts| >= 1
    ensures forall k :: 0 <= k < |parts| ==> c !in parts[k]
    decreases |s|
  {
    if c !in s then [s]
    else
      var i := FirstIndex(s, c);
      [s[..i]] + Split(s[i + 1..], c)
  }

  /** JavaScript's `parts.join(sep)` for a one-character separator. */
  function Join(parts: seq<string>, sep: char): (r: string)
    ensures parts != [] ==> parts[0] <= r
    ensures (forall k :: 0 <= k < |parts| ==> sep !in parts[k]) ==> (sep in r <==> |parts| >= 2)
  {
    if parts == [] then ""
    else if |parts| == 1 then parts[0]
    else parts[0] + [sep] + Join(parts[1..], sep)
  }

  /** Splitting a joined list gives the list back when no part holds the separator. */
  lemma {:induction false} SplitJoin(parts: seq<string>, sep: char)
    requires |parts| >= 1
    requires forall k :: 0 <= k < |parts| ==> sep !in parts[k]
    ensures Split(Join(parts, sep), sep) == parts
    decreases |parts|
  {
    if |parts| > 1 {
      var rest := Join(parts[1..], sep);
      FirstIndexAfter(parts[0], sep, rest);
      var s := parts[0] + [sep] + rest;
      assert s[..|parts[0]|] == parts[0];
      assert s[|parts[0]| + 1..] == rest;
      SplitJoin(parts[1..], sep);
    }
  }

  /** The first part of the URL split at `?`: the text before the first `?`, or all of it. */
  function Base(url: string): (b: string)
    ensures '?' !in b
    ensures b <= url
    ensures b == url || url[|b|] == '?'
    ensures b == url <==> '?' !in url
  {
    Split(url, '?')[0]
  }

  /** A parameter row as it appears in the query string. */
  function Render(p: Param): string
  {
    p.key + "=" + p.value
  }

  /** Every row rendered as `key=value`, in order. */
  function RenderAll(rows: seq<Param>): (r: seq<string>)
    ensures |r| == |rows|
    ensures forall k :: 0 <= k < |rows| ==> r[k] == Render(rows[k])
  {
    if rows == [] then [] else [Render(rows[0])] + RenderAll(rows[1..])
  }

  /** The query string of the parameter table. */
  function QueryString(rows: seq<Param>): (r: string)
    ensures r == "" <==> rows == []
  {
    Join(RenderAll(rows), '&')
  }

  /** The URL after a parameter edit or removal. */
  function RecomputeUrl(url: string, rows: seq<Param>): (r: string)
    ensures Base(r) == Base(url)
    ensures '?' in r
  {
    BaseAfter(Base(url), QueryString(rows));
    Base(url) + "?" + QueryString(rows)
  }

  /** The text after the first `?`, the part the parameter table writes. */
  function QueryPart(url: string): string
  {
    if '?' in url then url[FirstIndex(url, '?') + 1..] else ""
  }

  /** Reads `key=value` back, splitting at the first `=`. */
  function ParseParam(s: string): Param
  {
    if '=' in s then Param(s[..FirstIndex(s, '=')], s[FirstIndex(s, '=') + 1..])
    else Param(s, "")
  }

  /** Reads a query string back into rows. */
  function ParseQuery(q: string): (rows: seq<Param>)
  {
    var parts := Split(q, '&');
    seq(|parts|, k requires 0 <= k < |parts| => ParseParam(parts[k]))
  }

  /** The rows survive the round trip through the URL when they need no
      encoding: no `&` anywhere and no `=` in a key. */
  ghost predicate Plain(rows: seq<Param>)
  {
    forall k :: 0 <= k < |rows| ==>
      '&' !in rows[k].key && '&' !in rows[k].value && '=' !in rows[k].key
  }

  lemma RenderParse(p: Param)
    requires '=' !in p.key
    ensures ParseParam(Render(p)) == p
  {
    FirstIndexAfter(p.key, '=', p.value);
    assert Render(p) == p.key + ['='] + p.value;
  }

  /** The recomputed URL keeps exactly the text before the first `?` and
      carries every row, in row order: reading its query part back gives the
      table, whenever the table is non-empty and plain. */
  lemma RecomputeUrlRoundTrip(url: string, rows: seq<Param>)
    requires |rows| >= 1 && Plain(rows)
    ensures Base(RecomputeUrl(url, rows)) == Base(url)
    ensures ParseQuery(QueryPart(RecomputeUrl(url, rows))) == rows
  {
    var b := Base(url);
    var q := QueryString(rows);
    FirstIndexAfter(b, '?', q);
    var u := b + ['?'] + q;
    assert RecomputeUrl(url, rows) == u;
    assert u[FirstIndex(u, '?') + 1..] == q;
    BaseAfter(b, q);
    var parts := RenderAll(rows);
    forall k | 0 <= k < |parts| ensures '&' !in parts[k] {
      assert parts[k] == rows[k].key + ['='] + rows[k].value;
    }
    SplitJoin(parts, '&');
    forall k | 0 <= k < |rows| ensures ParseParam(parts[k]) == rows[k] {
      RenderParse(rows[k]);
    }
  }

  /** A base with no `?` followed by `?` and anything is its own base. */
  lemma BaseAfter(b: string, q: string)
    requires '?' !in b
    ensures Base(b + "?" + q) == b
  {
    FirstIndexAfter(b, '?', q);
    var u := b + ['?'] + q;
    assert u[..|b|] == b;
  }

  /** Recomputing the URL again from the same rows changes nothing. */
  lemma RecomputeUrlIdempotent(url: string, rows: seq<Param>)
    ensures RecomputeUrl(RecomputeUrl(url, rows), rows) == RecomputeUrl(url, rows)
  {
    BaseAfter(Base(url), QueryString(rows));
  }

  /** Appending a row appends `&key=value` to a non-empty table's query string. */
  lemma {:induction false} QueryStringAppend(rows: seq<Param>, p: Param)
    requires |rows| >= 1
    ensures QueryString(rows + [p]) == QueryString(rows) + "&" + Render(p)
    decreases |rows|
  {
    assert RenderAll(rows + [p]) == RenderAll(rows) + [Render(p)];
    JoinAppend(RenderAll(rows), Render(p), '&');
  }

  lemma {:induction false} JoinAppend(parts: seq<string>, x: string, sep: char)
    requires |parts| >= 1
    ensures Join(parts + [x], sep) == Join(parts, sep) + [sep] + x
    decreases |parts|
  {
    if |parts| > 1 {
      assert (parts + [x])[1..] == parts[1..] + [x];
      JoinAppend(parts[1..], x, sep);
    }
  }

  /** One blank row gives `base?=`; an empty key gives a `=value` segment. */
  lemma BlankRowQuery(url: string, v: string)
    ensures RecomputeUrl(url, [Param("", "")]) == Base(url) + "?="
    ensures QueryString([Param("", v)]) == "=" + v
  {
  }

  /** Recomputing a URL whose base is known. */
  lemma RecomputeFromBase(b: string, q: string, rows: seq<Param>)
    requires '?' !in b
    ensures RecomputeUrl(b + "?" + q, rows) == b + "?" + QueryString(rows)
  {
    BaseAfter(b, q);
  }

  /** `http://x.com/search?old=1` with the single row `q=cats` becomes
      `http://x.com/search?q=cats`. */
  lemma ReplacesOldQuery()
    ensures RecomputeUrl("http://x.com/search?old=1", [Param("q", "cats")]) == "http://x.com/search?q=cats"
  {
    var base, q := "http://x.com/search", "q=cats";
    assert "http://x.com/search?old=1" == base + "?" + "old=1" by { assert '?' !in base; }
    assert QueryString([Param("q", "cats")]) == q;
    RecomputeFromBase(base, "old=1", [Param("q", "cats")]);
    assert base + "?" + q == "http://x.com/search?q=cats";
  }
}
