/** The JavaScript built-ins that the swap site's core relies on, written as
    Dafny functions with the behaviour the core depends on:
    String.prototype.includes, toLowerCase (ASCII letters only), trim,
    split and join on a one-character separator, Array.prototype.indexOf,
    filter and find, and de-duplication through a Set. */
module Builtins {

  datatype Option<+T> = None | Some(value: T)

  // ---------------------------------------------------------------------
  // String.prototype.includes

  /** `t` occurs in `s` starting at index `i`. */
  ghost predicate OccursAt(s: string, t: string, i: int)
  {
    0 <= i && i + |t| <= |s| && s[i..i + |t|] == t
  }

  /** `t` is a contiguous substring of `s`. */
  ghost predicate IsSubstring(t: string, s: string)
  {
    exists i :: OccursAt(s, t, i)
  }

  /** `s.includes(t)`: scans `s` from the left for a copy of `t`. */
  function Includes(s: string, t: string): (b: bool)
    ensures t == [] ==> b
    ensures b ==> |t| <= |s|
    decreases |s|
  {
    if |t| > |s| then false
    else if s[..|t|] == t then true
    else Includes(s[1..], t)
  }

  /** `Includes` holds exactly when `t` is a contiguous substring of `s`. */
  lemma {:induction false} IncludesIffOccurs(s: string, t: string)
    ensures Includes(s, t) <==> exists i :: OccursAt(s, t, i)
    decreases |s|
  {
    if |t| > |s| {
    } else if s[..|t|] == t {
      assert OccursAt(s, t, 0);
    } else {
      IncludesIffOccurs(s[1..], t);
      if Includes(s[1..], t) {
        var j :| OccursAt(s[1..], t, j);
        assert s[j + 1..j + 1 + |t|] == s[1..][j..j + |t|];
        assert OccursAt(s, t, j + 1);
      }
      if i :| OccursAt(s, t, i) {
        assert i != 0;
        assert s[1..][i - 1..i - 1 + |t|] == s[i..i + |t|];
        assert OccursAt(s[1..], t, i - 1);
      }
    }
  }

  /** Every string includes the empty string and itself. */
  lemma IncludesEmptyAndSelf(s: string)
    ensures Includes(s, "") && Includes(s, s)
  {
    assert OccursAt(s, "", 0);
    assert OccursAt(s, s, 0);
    IncludesIffOccurs(s, "");
    IncludesIffOccurs(s, s);
  }

  // ---------------------------------------------------------------------
  // String.prototype.toLowerCase, restricted to ASCII letters

  function LowerChar(c: char): char
  {
    if 'A' <= c <= 'Z' then (c as int - 'A' as int + 'a' as int) as char else c
  }

  /** `s.toLowerCase()`: maps every upper-case ASCII letter to lower case. */
  function Lower(s: string): (r: string)
    ensures |r| == |s|
    ensures forall i :: 0 <= i < |s| ==> r[i] == LowerChar(s[i])
    ensures forall i :: 0 <= i < |r| ==> !('A' <= r[i] <= 'Z')
  {
    seq(|s|, i requires 0 <= i < |s| => LowerChar(s[i]))
  }

  /** Lower-casing twice is lower-casing once. */
  lemma LowerIdempotent(s: string)
    ensures Lower(Lower(s)) == Lower(s)
  {
  }

  // ---------------------------------------------------------------------
  // String.prototype.trim

  /** The characters ECMAScript counts as WhiteSpace or LineTerminator. */
  predicate IsSpace(c: char)
  {
    c == '\t' || c == '\n' || c == '\U{000B}' || c == '\U{000C}' || c == '\r' || c == ' '
    || c == '\U{00A0}' || c == '\U{1680}' || ('\U{2000}' <= c <= '\U{200A}')
    || c == '\U{2028}' || c == '\U{2029}' || c == '\U{202F}' || c == '\U{205F}'
    || c == '\U{3000}' || c == '\U{FEFF}'
  }

  ghost predicate AllSpace(s: string)
  {
    forall i :: 0 <= i < |s| ==> IsSpace(s[i])
  }

  /** Drops leading white space. */
  function TrimStart(s: string): (r: string)
    ensures |r| <= |s| && r == s[|s| - |r|..]
    ensures AllSpace(s[..|s| - |r|])
    ensures r == [] || !IsSpace(r[0])
  {
    if s != [] && IsSpace(s[0]) then TrimStart(s[1..]) else s
  }

  /** Drops trailing white space. */
  function TrimEnd(s: string): (r: string)
    ensures |r| <= |s| && r == s[..|r|]
    ensures AllSpace(s[|r|..])
    ensures r == [] || !IsSpace(r[|r| - 1])
  {
    if s != [] && IsSpace(s[|s| - 1]) then TrimEnd(s[..|s| - 1]) else s
  }

  /** `s.trim()`: the longest infix of `s` that neither starts nor ends with
      white space, what is cut off on either side being all white space. */
  function Trim(s: string): (r: string)
    ensures |r| <= |s|
    ensures exists k :: CutAt(s, r, k)
    ensures r == [] || (!IsSpace(r[0]) && !IsSpace(r[|r| - 1]))
  {
    var t := TrimStart(s);
    var r := TrimEnd(t);
    CutOfParts(s, t, r);
    r
  }

  /** Cutting white space off the front and then off the back is one cut. */
  lemma CutOfParts(s: string, t: string, r: string)
    requires |t| <= |s| && t == s[|s| - |t|..] && AllSpace(s[..|s| - |t|])
    requires |r| <= |t| && r == t[..|r|] && AllSpace(t[|r|..])
    ensures CutAt(s, r, |s| - |t|)
    ensures r != [] ==> r[0] == t[0]
  {
    var k := |s| - |t|;
    assert s[k..k + |r|] == r;
    assert s[k + |r|..] == t[|r|..];
  }

  /** `r` sits in `s` at `k`, with only white space before and after it. */
  ghost predicate CutAt(s: string, r: string, k: int)
  {
    0 <= k <= |s| - |r| && s[k..k + |r|] == r && AllSpace(s[..k]) && AllSpace(s[k + |r|..])
  }

  /** Trimming adds no character. */
  lemma TrimAddsNothing(s: string, c: char)
    requires c !in s
    ensures c !in Trim(s)
  {
  }

  /** A string with no white space at either end is its own trim. */
  lemma TrimmedIsFixed(s: string)
    requires s == [] || (!IsSpace(s[0]) && !IsSpace(s[|s| - 1]))
    ensures Trim(s) == s
  {
  }

  // ---------------------------------------------------------------------
  // String.prototype.split and Array.prototype.join on one character

  /** `s.split(sep)` for a one-character separator: the pieces between
      separators, an empty piece wherever two separators touch or the string
      starts or ends with one, and `[""]` for the empty string. */
  function Split(s: string, sep: char): (r: seq<string>)
    ensures |r| >= 1
    ensures forall k :: 0 <= k < |r| ==> sep !in r[k]
    ensures Join(r, sep) == s
  {
    if s == [] then [""]
    else
      var rest := Split(s[1..], sep);
      if s[0] == sep then
        assert Join([""] + rest, sep) == [] + [sep] + Join(rest, sep);
        [""] + rest
      else
        var r := [[s[0]] + rest[0]] + rest[1..];
        assert r[1..] == rest[1..];
        assert Join(r, sep) == [s[0]] + Join(rest, sep);
        r
  }

  /** `pieces.join(sep)`. */
  function Join(pieces: seq<string>, sep: char): (r: string)
    ensures pieces != [] ==> pieces[0] <= r
  {
    if pieces == [] then ""
    else if |pieces| == 1 then pieces[0]
    else pieces[0] + [sep] + Join(pieces[1..], sep)
  }

  /** Joining separator-free pieces puts exactly one separator between each
      two neighbours. */
  lemma {:induction false} JoinCountsSeparators(pieces: seq<string>, sep: char)
    requires forall k :: 0 <= k < |pieces| ==> sep !in pieces[k]
    ensures multiset(Join(pieces, sep))[sep] == if pieces == [] then 0 else |pieces| - 1
    decreases |pieces|
  {
    if |pieces| > 1 {
      JoinCountsSeparators(pieces[1..], sep);
      assert sep !in pieces[0];
    }
  }

  /** Splitting a join gives back the pieces, provided none holds the separator. */
  lemma {:induction false} SplitJoin(pieces: seq<string>, sep: char)
    requires |pieces| >= 1
    requires forall k :: 0 <= k < |pieces| ==> sep !in pieces[k]
    ensures Split(Join(pieces, sep), sep) == pieces
    decreases |pieces|, |pieces[0]|
  {
    var p := pieces[0];
    if |pieces| == 1 {
      SplitOfPlain(p, sep);
    } else if p == [] {
      var tail := pieces[1..];
      SplitJoin(tail, sep);
      assert Join(pieces, sep) == [sep] + Join(tail, sep);
      assert Join(pieces, sep)[1..] == Join(tail, sep);
    } else {
      var shorter := [p[1..]] + pieces[1..];
      assert shorter[1..] == pieces[1..];
      SplitJoin(shorter, sep);
      var s := Join(pieces, sep);
      assert s == [p[0]] + Join(shorter, sep);
      assert s[1..] == Join(shorter, sep);
      assert [p[0]] + shorter[0] == p;
      assert pieces == [[p[0]] + shorter[0]] + shorter[1..];
    }
  }

  /** A string without the separator splits into itself alone. */
  lemma {:induction false} SplitOfPlain(s: string, sep: char)
    requires sep !in s
    ensures Split(s, sep) == [s]
    decreases |s|
  {
    if s != [] {
      assert sep !in s[1..] by {
        forall c | c in s[1..] ensures c != sep {
          var i :| 0 <= i < |s[1..]| && s[1..][i] == c;
          assert s[i + 1] == c;
        }
      }
      SplitOfPlain(s[1..], sep);
    }
  }

  // ---------------------------------------------------------------------
  // Array.prototype.indexOf, filter, find, and [...new Set(xs)]

  /** `xs.indexOf(x)`: the first index holding `x`, or -1. */
  function IndexOf<T(==)>(xs: seq<T>, x: T): (r: int)
    ensures r == -1 <==> x !in xs
    ensures r != -1 ==> 0 <= r < |xs| && xs[r] == x && x !in xs[..r]
  {
    if xs == [] then -1
    else if xs[0] == x then 0
    else
      var k := IndexOf(xs[1..], x);
      if k == -1 then -1
      else
        assert xs[..k + 1] == [xs[0]] + xs[1..][..k];
        k + 1
  }

  /** `xs.filter(p)`. */
  function Filter<T(!new)>(p: T -> bool, xs: seq<T>): (r: seq<T>)
    ensures |r| <= |xs|
    ensures forall x :: x in r <==> x in xs && p(x)
  {
    if xs == [] then []
    else (if p(xs[0]) then [xs[0]] else []) + Filter(p, xs[1..])
  }

  /** Filtering distributes over concatenation, so it keeps relative order. */
  lemma {:induction false} FilterAppend<T(!new)>(p: T -> bool, a: seq<T>, b: seq<T>)
    ensures Filter(p, a + b) == Filter(p, a) + Filter(p, b)
    decreases |a|
  {
    if a == [] {
      assert a + b == b;
    } else {
      assert (a + b)[0] == a[0];
      assert (a + b)[1..] == a[1..] + b;
      FilterAppend(p, a[1..], b);
    }
  }

  /** Filtering keeps every passing element as often as it occurs and drops
      every failing one. */
  lemma {:induction false} FilterCounts<T(!new)>(p: T -> bool, xs: seq<T>, x: T)
    ensures multiset(Filter(p, xs))[x] == if p(x) then multiset(xs)[x] else 0
    decreases |xs|
  {
    if xs != [] {
      FilterCounts(p, xs[1..], x);
      assert xs == [xs[0]] + xs[1..];
    }
  }

  /** Filtering a list all of whose elements pass gives it back. */
  lemma {:induction false} FilterKeepsAll<T(!new)>(p: T -> bool, xs: seq<T>)
    requires forall x :: x in xs ==> p(x)
    ensures Filter(p, xs) == xs
    decreases |xs|
  {
    if xs != [] {
      FilterKeepsAll(p, xs[1..]);
      assert [xs[0]] + xs[1..] == xs;
    }
  }

  /** `r` can be obtained from `s` by deleting elements. */
  ghost predicate IsSubsequence<T>(r: seq<T>, s: seq<T>)
    decreases |s|
  {
    if r == [] then true
    else if s == [] then false
    else if r[0] == s[0] then IsSubsequence(r[1..], s[1..])
    else IsSubsequence(r, s[1..])
  }

  /** What `filter` keeps is an order-preserving subsequence of its input. */
  lemma {:induction false} FilterIsSubsequence<T(!new)>(p: T -> bool, xs: seq<T>)
    ensures IsSubsequence(Filter(p, xs), xs)
    decreases |xs|
  {
    if xs != [] {
      FilterIsSubsequence(p, xs[1..]);
      if p(xs[0]) {
        assert Filter(p, xs)[1..] == Filter(p, xs[1..]);
      } else {
        assert Filter(p, xs) == [] + Filter(p, xs[1..]) == Filter(p, xs[1..]);
        SubsequenceSkip(Filter(p, xs[1..]), xs[1..], xs[0]);
        assert [xs[0]] + xs[1..] == xs;
      }
    }
  }

  /** Prepending an element to `s` keeps `r` a subsequence of it. */
  lemma {:induction false} SubsequenceSkip<T>(r: seq<T>, s: seq<T>, x: T)
    requires IsSubsequence(r, s)
    ensures IsSubsequence(r, [x] + s)
    decreases |s|, 1
  {
    var xs := [x] + s;
    assert xs[1..] == s;
    if r != [] && r[0] == x {
      // r[0] is matched against x; the rest of r still fits in s
      SubsequenceDrop(r, s);
    }
  }

  /** If `r` fits in `s`, its tail fits in `s` too. */
  lemma {:induction false} SubsequenceDrop<T>(r: seq<T>, s: seq<T>)
    requires r != [] && IsSubsequence(r, s)
    ensures IsSubsequence(r[1..], s)
    decreases |s|, 0
  {
    if r[0] == s[0] {
      if r[1..] != [] {
        SubsequenceSkip(r[1..], s[1..], s[0]);
        assert [s[0]] + s[1..] == s;
      }
    } else {
      SubsequenceDrop(r, s[1..]);
      SubsequenceSkip(r[1..], s[1..], s[0]);
      assert [s[0]] + s[1..] == s;
    }
  }

  /** A subsequence of a subsequence of `c` is a subsequence of `c`. */
  lemma {:induction false} SubsequenceTrans<T>(a: seq<T>, b: seq<T>, c: seq<T>)
    requires IsSubsequence(a, b) && IsSubsequence(b, c)
    ensures IsSubsequence(a, c)
    decreases |c|
  {
    if a != [] {
      if b[0] == c[0] {
        if a[0] == b[0] {
          SubsequenceTrans(a[1..], b[1..], c[1..]);
        } else {
          SubsequenceTrans(a, b[1..], c[1..]);
        }
      } else {
        SubsequenceTrans(a, b, c[1..]);
        if a[0] == c[0] {
          SubsequenceDrop(a, c[1..]);
        }
      }
    }
  }

  /** `xs.find(p)`: the first element satisfying `p`, or nothing. */
  function Find<T>(p: T -> bool, xs: seq<T>): (r: Option<T>)
    ensures r.None? <==> forall k :: 0 <= k < |xs| ==> !p(xs[k])
    ensures r.Some? ==> r.value in xs && p(r.value)
  {
    if xs == [] then None
    else if p(xs[0]) then Some(xs[0])
    else Find(p, xs[1..])
  }

  /** What `find` returns is the first element satisfying `p`. */
  lemma {:induction false} FindIsFirst<T>(p: T -> bool, xs: seq<T>)
    requires Find(p, xs).Some?
    ensures exists k :: 0 <= k < |xs| && xs[k] == Find(p, xs).value
                        && forall j :: 0 <= j < k ==> !p(xs[j])
  {
    if !p(xs[0]) {
      FindIsFirst(p, xs[1..]);
      var k :| 0 <= k < |xs[1..]| && xs[1..][k] == Find(p, xs[1..]).value
               && forall j :: 0 <= j < k ==> !p(xs[1..][j]);
      assert xs[k + 1] == Find(p, xs).value;
      assert forall j :: 0 <= j < k + 1 ==> !p(xs[j]);
    } else {
      assert xs[0] == Find(p, xs).value;
    }
  }

  ghost predicate NoDuplicates<T>(xs: seq<T>)
  {
    forall i, j :: 0 <= i < j < |xs| ==> xs[i] != xs[j]
  }

  /** Without duplicates, the head is not in the tail, which has none either. */
  lemma NoDuplicatesTail<T>(xs: seq<T>)
    requires xs != [] && NoDuplicates(xs)
    ensures xs[0] !in xs[1..] && NoDuplicates(xs[1..])
  {
    forall i | 0 <= i < |xs| - 1 ensures xs[1..][i] != xs[0] {
      assert xs[1..][i] == xs[i + 1];
    }
    forall i, j | 0 <= i < j < |xs| - 1 ensures xs[1..][i] != xs[1..][j] {
      assert xs[1..][i] == xs[i + 1] && xs[1..][j] == xs[j + 1];
    }
  }

  /** `[...new Set(xs)]`: each distinct element once, in the order of its
      first occurrence in `xs`. */
  function Distinct<T(==,!new)>(xs: seq<T>): (r: seq<T>)
    ensures NoDuplicates(r)
    ensures forall x :: x in r <==> x in xs
    ensures forall i, j :: 0 <= i < j < |r| ==> IndexOf(xs, r[i]) < IndexOf(xs, r[j])
  {
    if xs == [] then []
    else
      var init := xs[..|xs| - 1];
      var last := xs[|xs| - 1];
      assert xs == init + [last];
      var d := Distinct(init);
      forall y | y in init ensures IndexOf(xs, y) == IndexOf(init, y) {
        IndexOfExtend(init, last, y);
      }
      if last in d then d
      else
        IndexOfExtend(init, last, last);
        d + [last]
  }

  /** Appending an element does not move the first occurrence of anything
      already present, and a new element's first occurrence is the end. */
  lemma {:induction false} IndexOfExtend<T>(xs: seq<T>, x: T, y: T)
    ensures y in xs ==> IndexOf(xs + [x], y) == IndexOf(xs, y)
    ensures y !in xs && y == x ==> IndexOf(xs + [x], y) == |xs|
    decreases |xs|
  {
    if xs != [] {
      assert (xs + [x])[1..] == xs[1..] + [x];
      IndexOfExtend(xs[1..], x, y);
    }
  }
}
