/**
  The sed-style correction the client sends to IRC when a Slack message is
  edited: both lines are cut into words at single spaces, the words they share
  at the start and at the end are skipped, and what lies between is reported
  as `s/OLD/NEW/`.
 */
module Diff {
  import opened Wrappers
  import opened Strings

  /** The words of a line, as Python's `line.split(' ')` gives them: runs of
      spaces give empty words, and the empty line is one empty word. */
  function Words(line: string): (ws: seq<string>)
    ensures |ws| >= 1
    ensures forall i :: 0 <= i < |ws| ==> ' ' !in ws[i]
    ensures Join(" ", ws) == line
  {
    JoinSplit(line, ' ');
    Split(line, ' ')
  }

  /** `n` is the length of the longest run of leading words the lists share. */
  predicate IsCommonPrefixLength(l1: seq<string>, l2: seq<string>, n: nat)
  {
    && n <= |l1| && n <= |l2|
    && l1[..n] == l2[..n]
    && (n == |l1| || n == |l2| || l1[n] != l2[n])
  }

  /** `n` is the length of the longest run of trailing words the lists share. */
  predicate IsCommonSuffixLength(l1: seq<string>, l2: seq<string>, n: nat)
  {
    && n <= |l1| && n <= |l2|
    && l1[|l1| - n..] == l2[|l2| - n..]
    && (n == |l1| || n == |l2| || l1[|l1| - n - 1] != l2[|l2| - n - 1])
  }

  /** There is only one longest shared leading run. */
  lemma CommonPrefixUnique(l1: seq<string>, l2: seq<string>, n: nat, m: nat)
    requires IsCommonPrefixLength(l1, l2, n) && IsCommonPrefixLength(l1, l2, m)
    ensures n == m
  {
  }

  /** There is only one longest shared trailing run. */
  lemma CommonSuffixUnique(l1: seq<string>, l2: seq<string>, n: nat, m: nat)
    requires IsCommonSuffixLength(l1, l2, n) && IsCommonSuffixLength(l1, l2, m)
    ensures n == m
  {
  }

  /** A prefix one longer is the prefix and the next element. */
  lemma PrefixSnoc(l: seq<string>, n: nat)
    requires n < |l|
    ensures l[..n + 1] == l[..n] + [l[n]]
  {
  }

  /** A suffix one longer is the element before it and the suffix. */
  lemma SuffixCons(l: seq<string>, n: nat)
    requires 1 <= n <= |l|
    ensures l[|l| - n..] == [l[|l| - n]] + l[|l| - (n - 1)..]
  {
  }

  /** The loop counting shared leading words: it compares `l1[prefix]` with
      `l2[prefix]` and stops at the first difference or at the `IndexError`
      raised past the end of the shorter list. */
  function PrefixScan(l1: seq<string>, l2: seq<string>, prefix: nat): (r: nat)
    requires prefix <= |l1| && prefix <= |l2| && l1[..prefix] == l2[..prefix]
    ensures IsCommonPrefixLength(l1, l2, r)
    decreases |l1| - prefix
  {
    match PyIndex(l1, prefix)
    case None => prefix
    case Some(x) =>
      match PyIndex(l2, prefix)
      case None => prefix
      case Some(y) =>
        if x != y then prefix
        else
          PrefixSnoc(l1, prefix);
          PrefixSnoc(l2, prefix);
          PrefixScan(l1, l2, prefix + 1)
  }

  /** The loop counting shared trailing words from `postfix = 1`: it compares
      `l1[-postfix]` with `l2[-postfix]` and stops at the first difference or
      at the `IndexError`; the count is one less than where it stopped. */
  function PostfixScan(l1: seq<string>, l2: seq<string>, postfix: nat): (r: nat)
    requires 1 <= postfix <= |l1| + 1 && postfix <= |l2| + 1
    requires l1[|l1| - (postfix - 1)..] == l2[|l2| - (postfix - 1)..]
    ensures r >= 1 && IsCommonSuffixLength(l1, l2, r - 1)
    decreases |l1| + 1 - postfix
  {
    match PyIndex(l1, -(postfix as int))
    case None =>
      SuffixStop(l1, l2, postfix);
      postfix
    case Some(x) =>
      match PyIndex(l2, -(postfix as int))
      case None =>
        SuffixStop(l1, l2, postfix);
        postfix
      case Some(y) =>
        if x != y then
          SuffixStop(l1, l2, postfix);
          postfix
        else
          SuffixCons(l1, postfix);
          SuffixCons(l2, postfix);
          PostfixScan(l1, l2, postfix + 1)
  }

  /** The trailing scan stops at the first difference or past an end. */
  lemma SuffixStop(l1: seq<string>, l2: seq<string>, n: nat)
    requires 1 <= n <= |l1| + 1 && n <= |l2| + 1
    requires l1[|l1| - (n - 1)..] == l2[|l2| - (n - 1)..]
    requires n == |l1| + 1 || n == |l2| + 1 || l1[|l1| - n] != l2[|l2| - n]
    ensures IsCommonSuffixLength(l1, l2, n - 1)
  {
  }

  /** The numbers of leading and trailing words a correction leaves out. */
  datatype Window = Window(prefix: nat, postfix: nat)

  /** The window left by shared runs of `p` leading and `q` trailing words:
      both are shrunk by one word when both are non-empty and the word counts
      differ, so that an insertion or deletion is shown with a word of context. */
  function Narrow(p: nat, q: nat, sameCount: bool): (w: Window)
    ensures sameCount ==> w == Window(p, q)
    ensures !sameCount && p != 0 && q != 0 ==> w.prefix == p - 1 && w.postfix == q - 1
    ensures !sameCount && (p == 0 || q == 0) ==> w == Window(p, q)
  {
    if p != 0 && q != 0 && !sameCount then Window(p - 1, q - 1) else Window(p, q)
  }

  /** The window of the correction: the shared leading and trailing runs,
      narrowed when the word counts differ. */
  function CorrectionWindow(l1: seq<string>, l2: seq<string>): (w: Window)
    ensures w.postfix <= |l1| && w.postfix <= |l2|
    ensures w.prefix <= |l1| && w.prefix <= |l2|
    ensures exists p: nat, q: nat ::
              && IsCommonPrefixLength(l1, l2, p) && IsCommonSuffixLength(l1, l2, q)
              && w == Narrow(p, q, |l1| == |l2|)
  {
    var prefix := PrefixScan(l1, l2, 0);
    var postfix := PostfixScan(l1, l2, 1) - 1;
    Narrow(prefix, postfix, |l1| == |l2|)
  }

  /** The shared runs a correction window was narrowed from. */
  lemma WindowRuns(l1: seq<string>, l2: seq<string>) returns (p0: nat, q0: nat)
    ensures IsCommonPrefixLength(l1, l2, p0) && IsCommonSuffixLength(l1, l2, q0)
    ensures CorrectionWindow(l1, l2) == Narrow(p0, q0, |l1| == |l2|)
  {
    var w := CorrectionWindow(l1, l2);
    p0, q0 :| IsCommonPrefixLength(l1, l2, p0) && IsCommonSuffixLength(l1, l2, q0)
              && CorrectionWindow(l1, l2) == Narrow(p0, q0, |l1| == |l2|);
  }

  /** The words of `l` strictly inside the window; empty where the leading
      and trailing runs overlap. */
  function Inside(l: seq<string>, w: Window): (r: seq<string>)
    requires w.postfix <= |l|
    ensures w.prefix + w.postfix <= |l| ==> |r| == |l| - w.prefix - w.postfix
    ensures w.prefix + w.postfix > |l| ==> r == []
  {
    if w.prefix <= |l| - w.postfix then l[w.prefix..|l| - w.postfix] else []
  }

  /** Python's `l[prefix:px]` with `px = None if postfix == 0 else -postfix`
      is the inside of the window: the omitted bound runs to the end, and
      crossed bounds clip to the empty list. */
  lemma WindowSlice(l: seq<string>, w: Window)
    requires w.postfix <= |l|
    ensures PySlice(l, w.prefix, if w.postfix == 0 then None else Some(-(w.postfix as int))) == Inside(l, w)
  {
  }

  /** The text of the old side: the joined words, or `$` when that is empty. */
  function OldText(joined: string): (t: string)
    ensures |t| > 0
    ensures joined != "" ==> t == joined
    ensures joined == "" ==> t == "$"
  {
    if joined == "" then "$" else joined
  }

  /** The correction for an edit from line `a` to line `b`; the empty string
      when the line did not change. */
  function Seddiff(a: string, b: string): (r: string)
    ensures r == "" <==> a == b
    ensures a != b ==>
              var l1 := Words(a);
              var l2 := Words(b);
              var w := CorrectionWindow(l1, l2);
              r == "s/" + OldText(Join(" ", Inside(l1, w))) + "/" + Join(" ", Inside(l2, w)) + "/"
  {
    if a == b then ""
    else
      var l1 := Split(a, ' ');
      var l2 := Split(b, ' ');
      var w := CorrectionWindow(l1, l2);
      var px: Option<int> := if w.postfix == 0 then None else Some(-(w.postfix as int));
      WindowSlice(l1, w);
      WindowSlice(l2, w);
      var was := Join(" ", PySlice(l1, w.prefix, px));
      "s/" + (if was == "" then "$" else was) + "/" + Join(" ", PySlice(l2, w.prefix, px)) + "/"
  }

  /** A correction of a changed line has the `s/OLD/NEW/` frame. */
  lemma SeddiffFrame(a: string, b: string)
    requires a != b
    ensures var r := Seddiff(a, b);
            |r| >= 4 && r[..2] == "s/" && r[|r| - 1] == '/'
  {
    var l1 := Words(a);
    var l2 := Words(b);
    var w := CorrectionWindow(l1, l2);
    Frame(OldText(Join(" ", Inside(l1, w))), Join(" ", Inside(l2, w)));
  }

  /** The frame of a correction, whatever its two sides. */
  lemma Frame(x: string, y: string)
    ensures var r := "s/" + x + "/" + y + "/";
            |r| >= 4 && r[..2] == "s/" && r[|r| - 1] == '/'
  {
    var r := "s/" + x + "/" + y + "/";
    assert r == "s/" + (x + "/" + y + "/");
  }

  /** Different lines have different words. */
  lemma WordsInjective(a: string, b: string)
    requires a != b
    ensures Words(a) != Words(b)
  {
  }

  /** When the shared runs do not overlap in either line, putting the new
      inside in place of the old one turns the old words into the new words:
      everything the correction leaves out is common to both lines. */
  lemma SeddiffPatch(a: string, b: string)
    requires var w := CorrectionWindow(Words(a), Words(b));
             w.prefix + w.postfix <= |Words(a)| && w.prefix + w.postfix <= |Words(b)|
    ensures var l1 := Words(a);
            var l2 := Words(b);
            var w := CorrectionWindow(l1, l2);
            && l1 == l1[..w.prefix] + Inside(l1, w) + l1[|l1| - w.postfix..]
            && l2 == l1[..w.prefix] + Inside(l2, w) + l1[|l1| - w.postfix..]
  {
    CorrectionPatch(Words(a), Words(b));
  }

  /** `SeddiffPatch` for any two lists of words. */
  lemma CorrectionPatch(l1: seq<string>, l2: seq<string>)
    requires var w := CorrectionWindow(l1, l2);
             w.prefix + w.postfix <= |l1| && w.prefix + w.postfix <= |l2|
    ensures var w := CorrectionWindow(l1, l2);
            && l1 == l1[..w.prefix] + Inside(l1, w) + l1[|l1| - w.postfix..]
            && l2 == l1[..w.prefix] + Inside(l2, w) + l1[|l1| - w.postfix..]
  {
    var w := CorrectionWindow(l1, l2);
    var p0, q0 := WindowRuns(l1, l2);
    WindowPatch(l1, l2, w, p0, q0);
  }

  /** Sequence bookkeeping for `CorrectionPatch`: a window inside the shared
      runs leaves out only shared words. */
  lemma WindowPatch(l1: seq<string>, l2: seq<string>, w: Window, p0: nat, q0: nat)
    requires IsCommonPrefixLength(l1, l2, p0) && IsCommonSuffixLength(l1, l2, q0)
    requires w.prefix <= p0 && w.postfix <= q0
    requires w.prefix + w.postfix <= |l1| && w.prefix + w.postfix <= |l2|
    ensures l1 == l1[..w.prefix] + Inside(l1, w) + l1[|l1| - w.postfix..]
    ensures l2 == l1[..w.prefix] + Inside(l2, w) + l1[|l1| - w.postfix..]
  {
    Decompose(l1, w);
    calc {
      l1[..w.prefix] + Inside(l2, w) + l1[|l1| - w.postfix..];
      { SharedPrefix(l1, l2, w.prefix, p0); SharedSuffix(l1, l2, w.postfix, q0); }
      l2[..w.prefix] + Inside(l2, w) + l2[|l2| - w.postfix..];
      { Decompose(l2, w); }
      l2;
    }
  }

  /** A list is its leading run, the inside of the window and its trailing run. */
  lemma Decompose(l: seq<string>, w: Window)
    requires w.prefix + w.postfix <= |l|
    ensures l[..w.prefix] + Inside(l, w) + l[|l| - w.postfix..] == l
  {
  }

  /** Lists sharing `p0` leading words share any shorter leading run. */
  lemma SharedPrefix(l1: seq<string>, l2: seq<string>, p: nat, p0: nat)
    requires IsCommonPrefixLength(l1, l2, p0) && p <= p0
    ensures l1[..p] == l2[..p]
  {
    assert l1[..p] == l1[..p0][..p];
    assert l2[..p] == l2[..p0][..p];
  }

  /** Lists sharing `q0` trailing words share any shorter trailing run. */
  lemma SharedSuffix(l1: seq<string>, l2: seq<string>, q: nat, q0: nat)
    requires IsCommonSuffixLength(l1, l2, q0) && q <= q0
    ensures l1[|l1| - q..] == l2[|l2| - q..]
  {
    assert l1[|l1| - q..] == l1[|l1| - q0..][q0 - q..];
    assert l2[|l2| - q..] == l2[|l2| - q0..][q0 - q..];
  }


  /** An edit that keeps the number of words never makes the shared runs
      overlap, so the correction describes it exactly. */
  lemma SameCountNoOverlap(a: string, b: string)
    requires a != b && |Words(a)| == |Words(b)|
    ensures var w := CorrectionWindow(Words(a), Words(b));
            w.prefix + w.postfix < |Words(a)|
  {
    var l1 := Words(a);
    var l2 := Words(b);
    var p0, q0 := WindowRuns(l1, l2);
    WordsInjective(a, b);
    RunsDisjoint(l1, l2, p0, q0);
  }

  /** In different lists of the same length, the shared leading and trailing
      runs leave at least one word between them. */
  lemma RunsDisjoint(l1: seq<string>, l2: seq<string>, p0: nat, q0: nat)
    requires l1 != l2 && |l1| == |l2|
    requires IsCommonPrefixLength(l1, l2, p0) && IsCommonSuffixLength(l1, l2, q0)
    ensures p0 + q0 < |l1|
  {
    SuffixAgrees(l1, l2, q0);
    PrefixStops(l1, l2, p0);
  }

  /** The words of a shared trailing run agree position by position. */
  lemma SuffixAgrees(l1: seq<string>, l2: seq<string>, q0: nat)
    requires |l1| == |l2| && IsCommonSuffixLength(l1, l2, q0)
    ensures forall i :: |l1| - q0 <= i < |l1| ==> l1[i] == l2[i]
  {
    var n := |l1|;
    forall i | n - q0 <= i < n
      ensures l1[i] == l2[i]
    {
      assert l1[n - q0..][i - (n - q0)] == l2[n - q0..][i - (n - q0)];
    }
  }

  /** A shared leading run of different lists of the same length stops at a
      word where they differ. */
  lemma PrefixStops(l1: seq<string>, l2: seq<string>, p0: nat)
    requires l1 != l2 && |l1| == |l2| && IsCommonPrefixLength(l1, l2, p0)
    ensures p0 < |l1| && l1[p0] != l2[p0]
  {
  }

  /** The words of a line built by joining separator-free words are those words. */
  lemma WordsOf(line: string, ws: seq<string>)
    requires |ws| >= 1 && forall i :: 0 <= i < |ws| ==> ' ' !in ws[i]
    requires Join(" ", ws) == line
    ensures Words(line) == ws
  {
    SplitJoin(ws, ' ');
  }

  /** The words of `x y z`, for words without spaces. */
  lemma ThreeWords(x: string, y: string, z: string)
    requires ' ' !in x && ' ' !in y && ' ' !in z
    ensures Words(x + " " + y + " " + z) == [x, y, z]
  {
    var ws: seq<string> := [x, y, z];
    assert Join(" ", ws[1..]) == y + " " + z by {
      assert ws[1..][1..] == [z];
    }
    WordsOf(x + " " + y + " " + z, ws);
  }

  /** The words of `x z`, for words without spaces. */
  lemma TwoWords(x: string, z: string)
    requires ' ' !in x && ' ' !in z
    ensures Words(x + " " + z) == [x, z]
  {
    var ws: seq<string> := [x, z];
    assert ws[1..] == [z];
    WordsOf(x + " " + z, ws);
  }

  /** The window for a substitution of the middle one of three words. */
  lemma MiddleWordWindow(l1: seq<string>, l2: seq<string>)
    requires |l1| == 3 && |l2| == 3
    requires l1[0] == l2[0] && l1[1] != l2[1] && l1[2] == l2[2]
    ensures CorrectionWindow(l1, l2) == Window(1, 1)
  {
    var p0, q0 := WindowRuns(l1, l2);
    assert l1[..1] == l2[..1];
    CommonPrefixUnique(l1, l2, p0, 1);
    assert l1[2..] == l2[2..];
    CommonSuffixUnique(l1, l2, q0, 1);
  }

  /** Replacing the middle one of three words is reported as that word alone. */
  lemma SeddiffMiddleWord(x: string, y: string, z: string, u: string)
    requires ' ' !in x && ' ' !in y && ' ' !in z && ' ' !in u
    requires y != u && y != ""
    ensures Seddiff(x + " " + y + " " + z, x + " " + u + " " + z) == "s/" + y + "/" + u + "/"
  {
    var l1: seq<string>, l2: seq<string> := [x, y, z], [x, u, z];
    ThreeWords(x, y, z);
    ThreeWords(x, u, z);
    MiddleWordWindow(l1, l2);
    assert Inside(l1, Window(1, 1)) == [y];
    assert Inside(l2, Window(1, 1)) == [u];
  }

  /** The window for a word inserted between two: both runs are one word long,
      and the differing counts narrow them to nothing. */
  lemma InsertedWordWindow(l1: seq<string>, l2: seq<string>)
    requires |l1| == 2 && |l2| == 3
    requires l1[0] == l2[0] && l1[1] != l2[1] && l1[1] == l2[2] && l1[0] != l2[1]
    ensures CorrectionWindow(l1, l2) == Window(0, 0)
  {
    var p0, q0 := WindowRuns(l1, l2);
    assert l1[..1] == l2[..1];
    CommonPrefixUnique(l1, l2, p0, 1);
    assert l1[1..] == l2[2..];
    CommonSuffixUnique(l1, l2, q0, 1);
  }

  /** Inserting a word between two others is reported with the whole lines:
      the shared words are kept as context. */
  lemma SeddiffInsertedWord(x: string, y: string, z: string)
    requires ' ' !in x && ' ' !in y && ' ' !in z
    requires y != z && x != y
    ensures var a, b := x + " " + z, x + " " + y + " " + z;
            Seddiff(a, b) == "s/" + a + "/" + b + "/"
  {
    var a, b := x + " " + z, x + " " + y + " " + z;
    var l1: seq<string>, l2: seq<string> := [x, z], [x, y, z];
    TwoWords(x, z);
    ThreeWords(x, y, z);
    InsertedWordWindow(l1, l2);
    assert |a| < |b|;
    assert Inside(l1, Window(0, 0)) == l1;
    assert Inside(l2, Window(0, 0)) == l2;
    assert Join(" ", l1) == a && Join(" ", l2) == b;
    assert OldText(a) == a;
  }
}
