/**
 * The parts of Go's `strings` package that the tuple parser and the row
 * filter use, written out on `seq<char>`.
 */
module Text {
  import opened Wrappers

  /** Characters `strings.TrimSpace` strips, restricted to ASCII. */
  const Whitespace: set<char> := {' ', '\t', '\n', '\U{B}', '\U{C}', '\r'}

  /** Number of occurrences of `c` in `s`. */
  function Count(s: string, c: char): nat
  {
    if s == [] then 0 else (if s[0] == c then 1 else 0) + Count(s[1..], c)
  }

  lemma {:induction false} CountAppend(a: string, b: string, c: char)
    ensures Count(a + b, c) == Count(a, c) + Count(b, c)
  {
    if a != [] {
      assert (a + b)[1..] == a[1..] + b;
      CountAppend(a[1..], b, c);
    } else {
      assert a + b == b;
    }
  }

  lemma {:induction false} CountAbsent(s: string, c: char)
    ensures Count(s, c) == 0 <==> c !in s
  {
    if s != [] {
      CountAbsent(s[1..], c);
      assert s == [s[0]] + s[1..];
    }
  }

  /** Position of the first `c` in `s`. */
  function IndexOf(s: string, c: char): (i: nat)
    requires c in s
    ensures i < |s| && s[i] == c && c !in s[..i]
    ensures forall j :: 0 <= j < i ==> s[j] != c
  {
    if s[0] == c then 0 else 1 + IndexOf(s[1..], c)
  }

  /**
   * `strings.SplitN(s, sep, 2)`: the text before the first `sep` and the
   * text after it, or None when `s` holds no `sep` (SplitN then returns a
   * single part).
   */
  function SplitFirst(s: string, sep: char): (r: Option<(string, string)>)
    ensures r.None? <==> sep !in s
    ensures r.Some? ==> s == r.value.0 + [sep] + r.value.1 && sep !in r.value.0
  {
    if sep in s then
      var i := IndexOf(s, sep);
      assert s == s[..i] + [sep] + s[i + 1..];
      Some((s[..i], s[i + 1..]))
    else
      None
  }

  /** The first separator splits a text uniquely: SplitFirst inverts `a + [sep] + b`. */
  lemma SplitFirstOf(a: string, sep: char, b: string)
    requires sep !in a
    ensures SplitFirst(a + [sep] + b, sep) == Some((a, b))
  {
    var s := a + [sep] + b;
    assert s[|a|] == sep;
    var i := IndexOf(s, sep);
    assert forall j :: 0 <= j < |a| ==> s[j] == a[j];
    assert i == |a|;
    assert s[..i] == a;
    assert s[i + 1..] == b;
  }

  /** `strings.Join(parts, sep)`. */
  function Join(parts: seq<string>, sep: char): string
  {
    if parts == [] then ""
    else if |parts| == 1 then parts[0]
    else parts[0] + [sep] + Join(parts[1..], sep)
  }

  /**
   * `strings.Split(s, sep)`: the maximal pieces between separators, in order;
   * always at least one piece, and joining them back gives `s`.
   */
  function Split(s: string, sep: char): (r: seq<string>)
    ensures |r| >= 1
    ensures forall k :: 0 <= k < |r| ==> sep !in r[k]
    ensures Join(r, sep) == s
    decreases |s|
  {
    match SplitFirst(s, sep)
    case None => [s]
    case Some((head, tail)) => [head] + Split(tail, sep)
  }

  /** Split inverts Join on separator-free pieces. */
  lemma {:induction false} SplitJoin(parts: seq<string>, sep: char)
    requires |parts| >= 1
    requires forall k :: 0 <= k < |parts| ==> sep !in parts[k]
    ensures Split(Join(parts, sep), sep) == parts
  {
    if |parts| > 1 {
      var rest := Join(parts[1..], sep);
      var s := parts[0] + [sep] + rest;
      assert Join(parts, sep) == s;
      SplitFirstOf(parts[0], sep, rest);
      SplitJoin(parts[1..], sep);
      assert Split(s, sep) == [parts[0]] + Split(rest, sep);
      assert parts == [parts[0]] + parts[1..];
    }
  }

  /** Split yields exactly two pieces precisely when `s` holds exactly one separator. */
  lemma SplitTwo(s: string, sep: char)
    ensures |Split(s, sep)| == 2 <==> Count(s, sep) == 1
  {
    var parts := Split(s, sep);
    SplitCount(s, sep);
  }

  lemma {:induction false} SplitCount(s: string, sep: char)
    ensures |Split(s, sep)| == Count(s, sep) + 1
    decreases |s|
  {
    match SplitFirst(s, sep)
    case None =>
      CountAbsent(s, sep);
    case Some((head, tail)) =>
      SplitCount(tail, sep);
      CountAppend(head + [sep], tail, sep);
      CountAppend(head, [sep], sep);
      CountAbsent(head, sep);
      assert Count([sep], sep) == 1 by { assert [sep][1..] == []; }
  }

  /** `strings.TrimLeft(s, cutset)`: drops every leading character of `cut`. */
  function TrimLeft(s: string, cut: set<char>): (r: string)
    ensures |r| <= |s|
  {
    if s != [] && s[0] in cut then TrimLeft(s[1..], cut) else s
  }

  /** TrimLeft keeps a suffix that does not start with `cut`, and removes only characters of `cut`. */
  lemma {:induction false} TrimLeftShape(s: string, cut: set<char>)
    ensures var r := TrimLeft(s, cut);
      && r == s[|s| - |r|..]
      && (r != [] ==> r[0] !in cut)
      && (forall k :: 0 <= k < |s| - |r| ==> s[k] in cut)
  {
    if s != [] && s[0] in cut {
      TrimLeftShape(s[1..], cut);
      assert forall k :: 1 <= k < |s| ==> s[k] == s[1..][k - 1];
    }
  }

  /** `strings.TrimRight(s, cutset)`: drops every trailing character of `cut`. */
  function TrimRight(s: string, cut: set<char>): (r: string)
    ensures |r| <= |s|
  {
    if s != [] && s[|s| - 1] in cut then TrimRight(s[..|s| - 1], cut) else s
  }

  /** TrimRight keeps a prefix that does not end with `cut`, and removes only characters of `cut`. */
  lemma {:induction false} TrimRightShape(s: string, cut: set<char>)
    ensures var r := TrimRight(s, cut);
      && r == s[..|r|]
      && (r != [] ==> r[|r| - 1] !in cut)
      && (forall k :: |r| <= k < |s| ==> s[k] in cut)
  {
    if s != [] && s[|s| - 1] in cut {
      TrimRightShape(s[..|s| - 1], cut);
    }
  }

  /** `strings.Trim(s, cutset)`: strips characters of `cut` from both ends. */
  function Trim(s: string, cut: set<char>): (r: string)
    ensures |r| <= |s|
  {
    TrimRight(TrimLeft(s, cut), cut)
  }

  /** What Trim keeps neither starts nor ends with a character of `cut`. */
  lemma TrimEnds(s: string, cut: set<char>)
    ensures var r := Trim(s, cut); r != [] ==> r[0] !in cut && r[|r| - 1] !in cut
  {
    var l := TrimLeft(s, cut);
    TrimLeftShape(s, cut);
    TrimRightShape(l, cut);
    var r := Trim(s, cut);
    if r != [] {
      assert r[0] == l[0];
    }
  }

  /** Trim strips any amount of `cut` around a text whose ends are not in `cut`. */
  lemma TrimAround(pre: string, mid: string, post: string, cut: set<char>)
    requires forall k :: 0 <= k < |pre| ==> pre[k] in cut
    requires forall k :: 0 <= k < |post| ==> post[k] in cut
    requires mid != [] ==> mid[0] !in cut && mid[|mid| - 1] !in cut
    ensures Trim(pre + mid + post, cut) == mid
  {
    if mid == [] {
      assert pre + mid + post == (pre + post) + [];
      forall k | 0 <= k < |pre + post| ensures (pre + post)[k] in cut {
        if k >= |pre| { assert (pre + post)[k] == post[k - |pre|]; }
      }
      TrimLeftAround(pre + post, [], cut);
    } else {
      assert pre + mid + post == pre + (mid + post);
      TrimLeftAround(pre, mid + post, cut);
      TrimRightAround(mid, post, cut);
    }
  }

  lemma {:induction false} TrimLeftAround(pre: string, rest: string, cut: set<char>)
    requires forall k :: 0 <= k < |pre| ==> pre[k] in cut
    requires rest != [] ==> rest[0] !in cut
    ensures TrimLeft(pre + rest, cut) == rest
  {
    if pre != [] {
      assert (pre + rest)[1..] == pre[1..] + rest;
      TrimLeftAround(pre[1..], rest, cut);
    } else {
      assert pre + rest == rest;
    }
  }

  lemma {:induction false} TrimRightAround(mid: string, post: string, cut: set<char>)
    requires forall k :: 0 <= k < |post| ==> post[k] in cut
    requires mid != [] ==> mid[|mid| - 1] !in cut
    ensures TrimRight(mid + post, cut) == mid
  {
    if post != [] {
      var s := mid + post;
      assert s[..|s| - 1] == mid + post[..|post| - 1];
      TrimRightAround(mid, post[..|post| - 1], cut);
    } else {
      assert mid + post == mid;
    }
  }

  /** `strings.TrimSpace`, on ASCII whitespace only. */
  function TrimSpace(s: string): string
  {
    Trim(s, Whitespace)
  }

  /** `strings.HasPrefix(s, prefix)`. */
  predicate HasPrefix(s: string, prefix: string)
  {
    |prefix| <= |s| && s[..|prefix|] == prefix
  }
}
