/**
  The handful of Python `str`/`list` primitives the client's parsers are built
  from: `find`/`index`, `split` on one separator, `join`, and indexing and
  slicing with Python's negative indices and clipping.
 */
module Strings {
  import opened Wrappers

  /** `pat` occurs in `s` starting at index `i`. */
  predicate OccursAt<T(==)>(s: seq<T>, pat: seq<T>, i: nat)
  {
    i + |pat| <= |s| && s[i..i + |pat|] == pat
  }

  /** Python's `pat in s` for a substring. */
  predicate Contains<T(==)>(s: seq<T>, pat: seq<T>)
  {
    exists i :: 0 <= i <= |s| && OccursAt(s, pat, i)
  }

  /** Python's `s.find(pat)` / `s.index(pat)`: the lowest index where `pat`
      occurs, or `None` where `find` returns -1 and `index` raises. */
  function Find<T(==)>(s: seq<T>, pat: seq<T>): (r: Option<nat>)
    ensures r.Some? ==> OccursAt(s, pat, r.value)
    ensures r.Some? ==> forall j :: 0 <= j < r.value ==> !OccursAt(s, pat, j)
    ensures r.None? <==> !Contains(s, pat)
  {
    FindFrom(s, pat, 0)
  }

  /** `Find` starting the search at index `from`. */
  function FindFrom<T(==)>(s: seq<T>, pat: seq<T>, from: nat): (r: Option<nat>)
    ensures r.Some? ==> from <= r.value && OccursAt(s, pat, r.value)
    ensures r.Some? ==> forall j :: from <= j < r.value ==> !OccursAt(s, pat, j)
    ensures r.None? ==> forall j :: from <= j <= |s| ==> !OccursAt(s, pat, j)
    decreases |s| - from
  {
    if from + |pat| > |s| then None
    else if s[from..from + |pat|] == pat then Some(from)
    else FindFrom(s, pat, from + 1)
  }

  /** For a one-element pattern, `find` is the first position holding it. */
  lemma FindSingle<T>(s: seq<T>, c: T)
    ensures Find(s, [c]).Some? ==>
              var i := Find(s, [c]).value;
              i < |s| && s[i] == c && c !in s[..i]
    ensures Find(s, [c]).None? <==> c !in s
  {
    var r := Find(s, [c]);
    if r.Some? {
      var i := r.value;
      assert s[i..i + 1][0] == s[i];
      forall j | 0 <= j < i
        ensures s[..i][j] != c
      {
        if s[j] == c {
          assert s[j..j + 1] == [c];
          assert OccursAt(s, [c], j);
        }
      }
    } else if c in s {
      var j :| 0 <= j < |s| && s[j] == c;
      assert s[j..j + 1] == [c];
      assert OccursAt(s, [c], j);
    }
  }

  /** The first `c` in `a + b` is at `|a|` when `a` has none and `b` starts with one. */
  lemma FindSingleAt<T>(a: seq<T>, b: seq<T>, c: T)
    requires c !in a
    requires |b| > 0 && b[0] == c
    ensures Find(a + b, [c]) == Some(|a|)
  {
    var s := a + b;
    FindSingle(s, c);
    assert s[|a|] == c;
    assert s[..|a|] == a;
  }

  /** An occurrence in a suffix is an occurrence in the whole, shifted. */
  lemma OccursAtShift<T>(s: seq<T>, pat: seq<T>, k: nat, j: nat)
    requires k <= |s|
    ensures OccursAt(s[k..], pat, j) <==> OccursAt(s, pat, k + j)
  {
    if k + j + |pat| <= |s| {
      assert s[k..][j..j + |pat|] == s[k + j..k + j + |pat|];
    }
  }

  /** A prefix cut before the first occurrence contains no occurrence. */
  lemma NotContainsPrefix<T>(s: seq<T>, pat: seq<T>, p: nat)
    requires |pat| > 0 && p <= |s|
    requires forall j :: 0 <= j < p ==> !OccursAt(s, pat, j)
    ensures !Contains(s[..p], pat)
  {
    forall j | 0 <= j <= p && OccursAt(s[..p], pat, j)
      ensures false
    {
      assert s[..p][j..j + |pat|] == s[j..j + |pat|];
      assert OccursAt(s, pat, j);
    }
  }

  /** Python's `s.split(c)` with a one-character separator: the runs between
      consecutive separators, so `n` separators give `n + 1` pieces. */
  function Split<T(==)>(s: seq<T>, c: T): (r: seq<seq<T>>)
    ensures |r| >= 1
    ensures forall i :: 0 <= i < |r| ==> c !in r[i]
    decreases |s|
  {
    FindSingle(s, c);
    match Find(s, [c])
    case None => [s]
    case Some(i) => [s[..i]] + Split(s[i + 1..], c)
  }

  /** Python's `sep.join(parts)`: the parts in order, one separator between
      each two. It starts with the first part; `JoinLast` shows it ends with
      the last. */
  function Join<T>(sep: seq<T>, parts: seq<seq<T>>): (r: seq<T>)
    ensures |parts| == 0 ==> r == []
    ensures |parts| >= 1 ==> |parts[0]| <= |r| && r[..|parts[0]|] == parts[0]
    decreases |parts|
  {
    if |parts| == 0 then []
    else if |parts| == 1 then parts[0]
    else parts[0] + sep + Join(sep, parts[1..])
  }

  /** `join` ends with the last part. */
  lemma {:induction false} JoinLast<T>(sep: seq<T>, parts: seq<seq<T>>)
    requires |parts| >= 1
    ensures var last := parts[|parts| - 1];
            var r := Join(sep, parts);
            |last| <= |r| && r[|r| - |last|..] == last
    decreases |parts|
  {
    if |parts| > 1 {
      JoinLast(sep, parts[1..]);
      assert parts[1..][|parts| - 2] == parts[|parts| - 1];
    }
  }

  /** `split` at a separator it finds: the piece before it, then the split
      of the rest. */
  lemma SplitFound<T>(s: seq<T>, c: T, i: nat)
    requires Find(s, [c]) == Some(i)
    ensures i < |s| && s[i] == c
    ensures Split(s, c) == [s[..i]] + Split(s[i + 1..], c)
  {
    FindSingle(s, c);
  }

  /** A sequence is what lies before, at and after any of its positions. */
  lemma Around<T>(s: seq<T>, i: nat)
    requires i < |s|
    ensures s[..i] + [s[i]] + s[i + 1..] == s
  {
  }

  /** `join` of a first part and at least one more. */
  lemma JoinCons<T>(sep: seq<T>, x: seq<T>, rest: seq<seq<T>>)
    requires |rest| >= 1
    ensures Join(sep, [x] + rest) == x + sep + Join(sep, rest)
  {
    assert ([x] + rest)[1..] == rest;
  }

  /** Splitting and re-joining with the same separator gives back the input. */
  lemma {:induction false} JoinSplit<T>(s: seq<T>, c: T)
    ensures Join([c], Split(s, c)) == s
    decreases |s|
  {
    match Find(s, [c])
    case None =>
      assert Split(s, c) == [s];
    case Some(i) =>
      var rest := s[i + 1..];
      SplitFound(s, c, i);
      calc {
        Join([c], Split(s, c));
        Join([c], [s[..i]] + Split(rest, c));
        { JoinCons([c], s[..i], Split(rest, c)); }
        s[..i] + [c] + Join([c], Split(rest, c));
        { JoinSplit(rest, c); }
        s[..i] + [c] + rest;
        { Around(s, i); }
        s;
      }
  }

  /** Joining pieces free of the separator and splitting again gives back the pieces. */
  lemma {:induction false} SplitJoin<T>(parts: seq<seq<T>>, c: T)
    requires |parts| >= 1
    requires forall i :: 0 <= i < |parts| ==> c !in parts[i]
    ensures Split(Join([c], parts), c) == parts
    decreases |parts|
  {
    if |parts| == 1 {
      FindSingle(parts[0], c);
    } else {
      var x, rest := parts[0], Join([c], parts[1..]);
      SplitAfter(x, rest, c);
      calc {
        Split(Join([c], parts), c);
        { JoinCons([c], x, parts[1..]); assert [x] + parts[1..] == parts; }
        Split(x + [c] + rest, c);
        [x] + Split(rest, c);
        { SplitJoin(parts[1..], c); }
        [x] + parts[1..];
        parts;
      }
    }
  }

  /** Splitting at a first separator placed after a separator-free piece. */
  lemma SplitAfter<T>(x: seq<T>, rest: seq<T>, c: T)
    requires c !in x
    ensures Split(x + [c] + rest, c) == [x] + Split(rest, c)
  {
    var s := x + [c] + rest;
    assert s == x + ([c] + rest);
    FindSingleAt(x, [c] + rest, c);
    SplitFound(s, c, |x|);
    assert s[..|x|] == x;
    assert s[|x| + 1..] == rest;
  }

  /** Joining two non-empty lists puts one separator between their joins. */
  lemma {:induction false} JoinAppend<T>(sep: seq<T>, a: seq<seq<T>>, b: seq<seq<T>>)
    requires |a| >= 1 && |b| >= 1
    ensures Join(sep, a + b) == Join(sep, a) + sep + Join(sep, b)
    decreases |a|
  {
    if |a| == 1 {
      assert (a + b)[1..] == b;
    } else {
      assert (a + b)[1..] == a[1..] + b;
      JoinAppend(sep, a[1..], b);
    }
  }

  /** Python's normalisation of a slice bound against length `n`: a negative
      bound counts from the end, and the result is clipped into `[0, n]`. */
  function ClipBound(i: int, n: nat): (r: nat)
    ensures r <= n
    ensures 0 <= i <= n ==> r == i
    ensures -(n as int) <= i < 0 ==> r as int == n as int + i
    ensures i < -(n as int) ==> r == 0
    ensures n < i ==> r == n
  {
    var j := if i < 0 then i + n else i;
    if j < 0 then 0 else if j > n then n else j
  }

  /** Python's `s[start:stop]`; `None` for `stop` is an omitted bound. A slice
      whose normalised bounds cross is empty rather than an error. */
  function PySlice<T>(s: seq<T>, start: int, stop: Option<int>): (r: seq<T>)
    ensures 0 <= start <= |s| && stop.None? ==> r == s[start..]
    ensures stop.Some? && 0 <= start <= stop.value <= |s| ==> r == s[start..stop.value]
    ensures stop.Some? && 0 <= stop.value <= start ==> r == []
    ensures stop.Some? && -|s| <= stop.value < 0 && 0 <= start <= |s| + stop.value ==>
              r == s[start..|s| + stop.value]
    ensures stop.Some? && -|s| <= stop.value < 0 && 0 <= |s| + stop.value <= start ==> r == []
    ensures |r| <= |s|
  {
    var lo := ClipBound(start, |s|);
    var hi := match stop case None => |s| case Some(e) => ClipBound(e, |s|);
    if lo < hi then s[lo..hi] else []
  }

  /** Python's `s[i]`: a negative index counts from the end, and `None`
      stands for the `IndexError` an index outside the list raises. */
  function PyIndex<T>(s: seq<T>, i: int): (r: Option<T>)
    ensures r.Some? <==> -|s| <= i < |s|
    ensures 0 <= i < |s| ==> r == Some(s[i])
    ensures -|s| <= i < 0 ==> r == Some(s[|s| + i])
  {
    if 0 <= i < |s| then Some(s[i])
    else if -|s| <= i < 0 then Some(s[|s| + i])
    else None
  }
}
