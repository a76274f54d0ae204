/**
  The client's chat-markup splitter. A message is cut at triple-backtick
  fences into normal and preformatted blocks; a normal block is cut into plain
  text runs and Slack's `<...>` special items (mentions, channel references,
  group mentions, links), each of which exposes a kind, a value and an
  optional human-readable label.
 */
module MsgParsing {
  import opened Wrappers
  import opened Strings

  // ---------------------------------------------------------------------
  // Preformatted blocks
  // ---------------------------------------------------------------------

  /** The delimiter of a preformatted block. */
  const Fence: string := "```"

  /** A block of a message and whether it lies inside a fence pair. */
  datatype Block = Block(text: string, pre: bool)

  /** The texts of the blocks, in order. */
  function Texts(bs: seq<Block>): (ts: seq<string>)
    ensures |ts| == |bs|
    ensures forall i :: 0 <= i < |bs| ==> ts[i] == bs[i].text
  {
    seq(|bs|, i requires 0 <= i < |bs| => bs[i].text)
  }

  /** A text ending in a backtick, which would fuse with a fence placed after it. */
  predicate EndsInTick(t: string)
  {
    |t| > 0 && t[|t| - 1] == '`'
  }

  /**
    The blocks of a message, cut at each fence found scanning left to right.
    The preformatted flag starts false and flips at every fence, so an
    unterminated fence leaves the last block preformatted. No block holds a
    fence, and no block but the last ends in a backtick (that backtick would
    have started an earlier fence).
   */
  function Preblocks(msg: string): (r: seq<Block>)
    ensures |r| >= 1
    ensures forall i :: 0 <= i < |r| ==> r[i].pre == (i % 2 == 1)
    ensures forall i :: 0 <= i < |r| ==> !Contains(r[i].text, Fence)
    ensures forall i :: 0 <= i < |r| - 1 ==> !EndsInTick(r[i].text)
  {
    PreblocksFrom(msg, false)
  }

  /** The loop of `Preblocks` entered with flag `pre`. */
  function PreblocksFrom(msg: string, pre: bool): (r: seq<Block>)
    ensures WellFormedBlocks(r, pre)
    decreases |msg|
  {
    match Find(msg, Fence)
    case None => [Block(msg, pre)]
    case Some(p) =>
      NotContainsPrefix(msg, Fence, p);
      FenceNotAfterTick(msg, p);
      var rest := PreblocksFrom(msg[p + |Fence|..], !pre);
      BlocksCons(Block(msg[..p], pre), rest, pre);
      [Block(msg[..p], pre)] + rest
  }

  /** A fence-free block with the right flag, not ending in a backtick, in
      front of a well-formed sequence that starts with the other flag. */
  lemma BlocksCons(b: Block, rest: seq<Block>, pre: bool)
    requires b.pre == pre && !Contains(b.text, Fence) && !EndsInTick(b.text)
    requires WellFormedBlocks(rest, !pre)
    ensures WellFormedBlocks([b] + rest, pre)
  {
    var bs := [b] + rest;
    forall i | 1 <= i < |bs|
      ensures bs[i] == rest[i - 1]
    {
    }
  }

  /** The text before the first fence does not end in a backtick. */
  lemma FenceNotAfterTick(msg: string, p: nat)
    requires OccursAt(msg, Fence, p)
    requires forall j :: 0 <= j < p ==> !OccursAt(msg, Fence, j)
    ensures !EndsInTick(msg[..p])
  {
    if p > 0 && msg[p - 1] == '`' {
      assert msg[p..p + 3] == Fence;
      assert msg[p..p + 3][0] == msg[p] && msg[p..p + 3][1] == msg[p + 1];
      assert msg[p - 1..p + 2] == [msg[p - 1], msg[p], msg[p + 1]];
      assert OccursAt(msg, Fence, p - 1);
    }
  }

  /** Reference definition: `s` with every fence removed, scanning left to
      right so that fences never overlap. */
  function RemoveFences(s: string): string
    decreases |s|
  {
    if |s| == 0 then ""
    else if OccursAt(s, Fence, 0) then RemoveFences(s[|Fence|..])
    else [s[0]] + RemoveFences(s[1..])
  }

  /** Reference definition: the number of fences a left-to-right scan meets. */
  function FenceCount(s: string): nat
    decreases |s|
  {
    if |s| == 0 then 0
    else if OccursAt(s, Fence, 0) then 1 + FenceCount(s[|Fence|..])
    else FenceCount(s[1..])
  }

  /** A character that does not start a fence is kept and not counted. */
  lemma NoFenceStep(s: string)
    requires |s| > 0 && !OccursAt(s, Fence, 0)
    ensures RemoveFences(s) == [s[0]] + RemoveFences(s[1..])
    ensures FenceCount(s) == FenceCount(s[1..])
  {
  }

  /** A fence is dropped and counted once. */
  lemma FenceStep(s: string)
    requires OccursAt(s, Fence, 0)
    ensures RemoveFences(s) == RemoveFences(s[|Fence|..])
    ensures FenceCount(s) == 1 + FenceCount(s[|Fence|..])
  {
  }

  /** Fence-free leading positions stay fence-free after dropping one character. */
  lemma NoFenceShift(s: string, p: nat)
    requires 0 < p <= |s|
    requires forall j :: 0 <= j < p ==> !OccursAt(s, Fence, j)
    ensures forall j :: 0 <= j < p - 1 ==> !OccursAt(s[1..], Fence, j)
  {
    forall j | 0 <= j < p - 1
      ensures !OccursAt(s[1..], Fence, j)
    {
      OccursAtShift(s, Fence, 1, j);
    }
  }

  /** Characters before the first fence are kept as they are and counted as nothing. */
  lemma ScanUpTo(s: string, p: nat)
    requires p <= |s|
    requires forall j :: 0 <= j < p ==> !OccursAt(s, Fence, j)
    ensures RemoveFences(s) == s[..p] + RemoveFences(s[p..])
    ensures FenceCount(s) == FenceCount(s[p..])
  {
    KeepUpTo(s, p);
    CountUpTo(s, p);
  }

  /** Dropping the first character, as slices. */
  lemma AfterHead(s: string, p: nat)
    requires 0 < p <= |s|
    ensures [s[0]] + s[1..][..p - 1] == s[..p]
    ensures s[1..][p - 1..] == s[p..]
  {
  }

  /** `RemoveFences` keeps a fence-free prefix unchanged. */
  lemma {:induction false} KeepUpTo(s: string, p: nat)
    requires p <= |s|
    requires forall j :: 0 <= j < p ==> !OccursAt(s, Fence, j)
    ensures RemoveFences(s) == s[..p] + RemoveFences(s[p..])
    decreases p
  {
    if p > 0 {
      NoFenceStep(s);
      NoFenceShift(s, p);
      AfterHead(s, p);
      calc {
        RemoveFences(s);
        [s[0]] + RemoveFences(s[1..]);
        { KeepUpTo(s[1..], p - 1); }
        [s[0]] + (s[1..][..p - 1] + RemoveFences(s[p..]));
        ([s[0]] + s[1..][..p - 1]) + RemoveFences(s[p..]);
        s[..p] + RemoveFences(s[p..]);
      }
    }
  }

  /** `FenceCount` counts nothing in a fence-free prefix. */
  lemma {:induction false} CountUpTo(s: string, p: nat)
    requires p <= |s|
    requires forall j :: 0 <= j < p ==> !OccursAt(s, Fence, j)
    ensures FenceCount(s) == FenceCount(s[p..])
    decreases p
  {
    if p > 0 {
      NoFenceStep(s);
      NoFenceShift(s, p);
      AfterHead(s, p);
      CountUpTo(s[1..], p - 1);
    }
  }

  /** One step of the `Preblocks` loop: the text before the first fence is a
      block, and the loop goes on after the fence with the flag flipped. */
  lemma PreblocksCut(msg: string, pre: bool, p: nat)
    requires Find(msg, Fence) == Some(p)
    ensures p + |Fence| <= |msg| && msg[p..p + |Fence|] == Fence
    ensures PreblocksFrom(msg, pre) == [Block(msg[..p], pre)] + PreblocksFrom(msg[p + |Fence|..], !pre)
  {
  }

  /** The texts of a block in front of others. */
  lemma TextsCons(b: Block, bs: seq<Block>)
    ensures Texts([b] + bs) == [b.text] + Texts(bs)
  {
  }

  /** Splitting at fences loses exactly the fences: the block texts, in
      order, spell the message with every fence removed. */
  lemma {:induction false} PreblocksRemoveFences(msg: string, pre: bool)
    ensures Join("", Texts(PreblocksFrom(msg, pre))) == RemoveFences(msg)
    decreases |msg|
  {
    match Find(msg, Fence)
    case None =>
      ScanUpTo(msg, |msg|);
      assert msg[..|msg|] == msg;
      assert Texts(PreblocksFrom(msg, pre)) == [msg];
    case Some(p) =>
      PreblocksCut(msg, pre, p);
      ScanUpTo(msg, p);
      var rest := msg[p + |Fence|..];
      OccursAtShift(msg, Fence, p, 0);
      FenceStep(msg[p..]);
      assert msg[p..][|Fence|..] == rest;
      PreblocksRemoveFences(rest, !pre);
      var tail := PreblocksFrom(rest, !pre);
      calc {
        Join("", Texts(PreblocksFrom(msg, pre)));
        { TextsCons(Block(msg[..p], pre), tail); }
        Join("", [msg[..p]] + Texts(tail));
        { JoinCons("", msg[..p], Texts(tail)); }
        msg[..p] + "" + Join("", Texts(tail));
        { assert msg[..p] + "" == msg[..p]; }
        msg[..p] + RemoveFences(rest);
        RemoveFences(msg);
      }
  }

  /** There is one block more than there are fences. */
  lemma {:induction false} PreblocksCount(msg: string, pre: bool)
    ensures |PreblocksFrom(msg, pre)| == FenceCount(msg) + 1
    decreases |msg|
  {
    match Find(msg, Fence)
    case None =>
      ScanUpTo(msg, |msg|);
    case Some(p) =>
      PreblocksCut(msg, pre, p);
      ScanUpTo(msg, p);
      var rest := msg[p + |Fence|..];
      OccursAtShift(msg, Fence, p, 0);
      FenceStep(msg[p..]);
      assert msg[p..][|Fence|..] == rest;
      PreblocksCount(rest, !pre);
  }

  /** A message is the text before its first fence, the fence, and the rest. */
  lemma FenceAround(msg: string, p: nat)
    requires p + |Fence| <= |msg| && msg[p..p + |Fence|] == Fence
    ensures msg[..p] + Fence + msg[p + |Fence|..] == msg
  {
  }

  /** Re-inserting a fence between consecutive blocks gives back the message. */
  lemma {:induction false} PreblocksRejoin(msg: string, pre: bool)
    ensures Join(Fence, Texts(PreblocksFrom(msg, pre))) == msg
    decreases |msg|
  {
    match Find(msg, Fence)
    case None =>
      assert Texts(PreblocksFrom(msg, pre)) == [msg];
    case Some(p) =>
      PreblocksCut(msg, pre, p);
      var rest := msg[p + |Fence|..];
      var tail := PreblocksFrom(rest, !pre);
      calc {
        Join(Fence, Texts(PreblocksFrom(msg, pre)));
        { TextsCons(Block(msg[..p], pre), tail); }
        Join(Fence, [msg[..p]] + Texts(tail));
        { JoinCons(Fence, msg[..p], Texts(tail)); }
        msg[..p] + Fence + Join(Fence, Texts(tail));
        { PreblocksRejoin(rest, !pre); }
        msg[..p] + Fence + rest;
        { FenceAround(msg, p); }
        msg;
      }
  }

  /** The flag of the last block tells whether a fence was left open. */
  lemma PreblocksLastPre(msg: string)
    ensures Preblocks(msg)[|Preblocks(msg)| - 1].pre <==> FenceCount(msg) % 2 == 1
  {
    assert Preblocks(msg) == PreblocksFrom(msg, false);
    LastBlockFlag(msg);
  }

  /** The block after the last fence is preformatted when the fences are odd. */
  lemma LastBlockFlag(msg: string)
    ensures |PreblocksFrom(msg, false)| == FenceCount(msg) + 1
    ensures PreblocksFrom(msg, false)[FenceCount(msg)].pre <==> FenceCount(msg) % 2 == 1
  {
    PreblocksCount(msg, false);
    LastFlag(PreblocksFrom(msg, false), false, FenceCount(msg));
  }

  /** The flag of the last of `n + 1` well-formed blocks. */
  lemma LastFlag(bs: seq<Block>, pre: bool, n: nat)
    requires WellFormedBlocks(bs, pre) && |bs| == n + 1
    ensures bs[n].pre == (pre != (n % 2 == 1))
  {
  }

  /** The properties of `Preblocks` the tests exercise, for the whole message. */
  lemma PreblocksShape(msg: string)
    ensures Join("", Texts(Preblocks(msg))) == RemoveFences(msg)
    ensures |Preblocks(msg)| == FenceCount(msg) + 1
    ensures Join(Fence, Texts(Preblocks(msg))) == msg
    ensures Preblocks(msg)[|Preblocks(msg)| - 1].pre <==> FenceCount(msg) % 2 == 1
  {
    PreblocksRemoveFences(msg, false);
    PreblocksCount(msg, false);
    PreblocksRejoin(msg, false);
    PreblocksLastPre(msg);
  }

  /** The block sequences `Preblocks` can produce, starting with flag `pre`:
      the flag alternates, no block holds a fence, and no block but the last
      ends in a backtick. */
  predicate WellFormedBlocks(bs: seq<Block>, pre: bool)
  {
    && |bs| >= 1
    && (forall i :: 0 <= i < |bs| ==> bs[i].pre == (pre != (i % 2 == 1)))
    && (forall i :: 0 <= i < |bs| ==> !Contains(bs[i].text, Fence))
    && (forall i :: 0 <= i < |bs| - 1 ==> !EndsInTick(bs[i].text))
  }

  /** The first fence of `t + Fence + rest` is the one just after `t`. */
  lemma FindFenceAfter(t: string, rest: string)
    requires !Contains(t, Fence) && !EndsInTick(t)
    ensures Find(t + Fence + rest, Fence) == Some(|t|)
  {
    var s := t + Fence + rest;
    assert s[|t|..|t| + 3] == Fence;
    assert OccursAt(s, Fence, |t|);
    forall j | 0 <= j < |t|
      ensures !OccursAt(s, Fence, j)
    {
      if j + 3 <= |t| {
        assert s[j..j + 3] == t[j..j + 3];
        assert !OccursAt(t, Fence, j);
      } else {
        assert s[|t| - 1] == t[|t| - 1] != '`';
      }
    }
  }

  /** Every sequence of blocks `Preblocks` can produce is produced from its
      own fenced join: the splitter loses nothing and is one-to-one. */
  lemma {:induction false} PreblocksOfJoin(bs: seq<Block>, pre: bool)
    requires WellFormedBlocks(bs, pre)
    ensures PreblocksFrom(Join(Fence, Texts(bs)), pre) == bs
    decreases |bs|
  {
    var msg := Join(Fence, Texts(bs));
    if |bs| == 1 {
      assert msg == bs[0].text;
      assert !Contains(msg, Fence);
    } else {
      var t := bs[0].text;
      var tail := bs[1..];
      var rest := Join(Fence, Texts(tail));
      assert bs == [Block(t, pre)] + tail;
      assert msg == t + Fence + rest by {
        TextsCons(Block(t, pre), tail);
        JoinCons(Fence, t, Texts(tail));
      }
      TailWellFormed(bs, pre);
      calc {
        PreblocksFrom(msg, pre);
        { FindFenceAfter(t, rest);
          PreblocksCut(msg, pre, |t|); }
        [Block(msg[..|t|], pre)] + PreblocksFrom(msg[|t| + |Fence|..], !pre);
        { assert msg[..|t|] == t;
          assert msg[|t| + |Fence|..] == rest; }
        [Block(t, pre)] + PreblocksFrom(rest, !pre);
        { PreblocksOfJoin(tail, !pre); }
        [Block(t, pre)] + tail;
      }
    }
  }

  /** Dropping the first block of a well-formed sequence leaves one that
      starts with the other flag. */
  lemma TailWellFormed(bs: seq<Block>, pre: bool)
    requires WellFormedBlocks(bs, pre) && |bs| >= 2
    ensures WellFormedBlocks(bs[1..], !pre)
  {
    var tail := bs[1..];
    forall i | 0 <= i < |tail|
      ensures tail[i].pre == (!pre != (i % 2 == 1))
    {
      assert tail[i] == bs[i + 1];
    }
  }

  // ---------------------------------------------------------------------
  // Special items
  // ---------------------------------------------------------------------

  /** What a special item refers to, chosen by its second character. */
  datatype Itemkind = GroupMention | Mention | Channel | Other

  /** The raw text of one `<...>` item, delimiters included; the accessors
      recompute everything from it. */
  datatype SpecialItem = SpecialItem(txt: string)
  {
    /** `!` marks a group mention (here, everyone), `@` a user, `#` a channel. */
    function Kind(): (k: Itemkind)
      requires |txt| >= 2
      ensures k == GroupMention <==> txt[1] == '!'
      ensures k == Mention <==> txt[1] == '@'
      ensures k == Channel <==> txt[1] == '#'
      ensures k == Other <==> txt[1] !in "!@#"
    {
      if txt[1] == '!' then GroupMention
      else if txt[1] == '@' then Mention
      else if txt[1] == '#' then Channel
      else Other
    }

    /** Python's `txt.find('|')`: the first separator, or -1. */
    function SepIndex(): (sep: int)
      ensures -1 <= sep < |txt|
      ensures sep == -1 <==> '|' !in txt
      ensures sep >= 0 ==> txt[sep] == '|' && '|' !in txt[..sep]
    {
      FindSingle(txt, '|');
      match Find(txt, "|")
      case None => -1
      case Some(i) => i
    }

    /** The identifier or link: what lies between the sigil (none for
        `Other`) and the first `|`, or the closing character without one. */
    function Val(): (v: string)
      requires |txt| >= 2
      ensures '|' !in v
      ensures |v| <= |txt| - 2
    {
      var found := SepIndex();
      var sep := if found == -1 then |txt| - 1 else found;
      if Kind() != Other then PySlice(txt, 2, Some(sep))
      else PySlice(txt, 1, Some(sep))
    }

    /** The display label: what follows the first `|`, up to but excluding
        the closing character; absent without a `|`. */
    function Human(): (h: Option<string>)
      ensures h.None? <==> '|' !in txt
      ensures h.Some? ==> |h.value| < |txt|
    {
      var sep := SepIndex();
      if sep == -1 then None
      else Some(PySlice(txt, sep + 1, Some(-1)))
    }
  }

  /** The shape `SplitTokens` gives a special item: `<`, then no `>`, then `>`. */
  predicate IsTag(s: string)
  {
    |s| >= 2 && s[0] == '<' && s[|s| - 1] == '>' && '>' !in s[..|s| - 1]
  }

  /** The label together with its separator, as it appears in the raw text. */
  function LabelPart(h: Option<string>): string
  {
    match h
    case None => ""
    case Some(s) => "|" + s
  }

  /** The character after `<` that selects each kind; `Other` has none. */
  function Sigil(k: Itemkind): string
  {
    match k
    case GroupMention => "!"
    case Mention => "@"
    case Channel => "#"
    case Other => ""
  }

  /** The raw text of an item with the given kind, value and label. */
  function ItemText(k: Itemkind, v: string, h: Option<string>): string
  {
    "<" + Sigil(k) + v + LabelPart(h) + ">"
  }

  /** The value and label an item can carry and read back unchanged: the
      value has no `|`, and an `Other` value does not start with a sigil. */
  predicate Readable(k: Itemkind, v: string)
  {
    '|' !in v && (k == Other && |v| > 0 ==> v[0] !in "!@#")
  }

  /** Where the value of a bracketed item starts and ends in its raw text. */
  lemma ValueSpan(it: SpecialItem) returns (open: nat, stop: nat)
    requires |it.txt| >= 2 && it.txt[0] == '<' && it.txt[|it.txt| - 1] == '>'
    ensures open == |Sigil(it.Kind())| + 1
    ensures open <= stop <= |it.txt| - 1
    ensures it.Val() == it.txt[open..stop]
    ensures it.SepIndex() == -1 ==> stop == |it.txt| - 1
    ensures it.SepIndex() != -1 ==> stop == it.SepIndex()
  {
    var txt := it.txt;
    var sep := it.SepIndex();
    open := if it.Kind() == Other then 1 else 2;
    stop := if sep == -1 then |txt| - 1 else sep;
    if open == 2 {
      assert txt[1] != '>';
      if sep != -1 {
        assert txt[1] != '|';
      }
    }
  }

  /** The raw text up to the value is `<` and the sigil. */
  lemma OpeningIsSigil(it: SpecialItem)
    requires |it.txt| >= 2 && it.txt[0] == '<' && it.txt[|it.txt| - 1] == '>'
    ensures |Sigil(it.Kind())| + 1 <= |it.txt|
    ensures it.txt[..|Sigil(it.Kind())| + 1] == "<" + Sigil(it.Kind())
  {
    if it.Kind() != Other {
      assert it.txt[..2] == [it.txt[0], it.txt[1]];
    }
  }

  /** The accessors cut a bracketed item into pieces that spell it exactly:
      `<`, the sigil unless the kind is `Other`, the value, the separator and
      label if any, and the closing `>`. */
  lemma SpecialItemParts(it: SpecialItem)
    requires |it.txt| >= 2 && it.txt[0] == '<' && it.txt[|it.txt| - 1] == '>'
    ensures Readable(it.Kind(), it.Val())
    ensures it.txt == ItemText(it.Kind(), it.Val(), it.Human())
  {
    var txt := it.txt;
    var k := it.Kind();
    var open, stop := ValueSpan(it);
    OpeningIsSigil(it);
    var v := it.Val();
    if k == Other && |v| > 0 {
      assert v[0] == txt[1];
    }
    var h := it.Human();
    if h.Some? {
      assert h.value == txt[stop + 1..|txt| - 1];
    }
    Reassemble(txt, Sigil(k), open, stop, h);
  }

  /** Sequence bookkeeping for `SpecialItemParts`. */
  lemma Reassemble(txt: string, sigil: string, open: nat, stop: nat, h: Option<string>)
    requires open <= stop <= |txt| - 1 && txt[|txt| - 1] == '>'
    requires txt[..open] == "<" + sigil
    requires h.None? ==> stop == |txt| - 1
    requires h.Some? ==> stop < |txt| - 1 && txt[stop] == '|' && h.value == txt[stop + 1..|txt| - 1]
    ensures txt == "<" + sigil + txt[open..stop] + LabelPart(h) + ">"
  {
    var n := |txt|;
    if h.None? {
      assert txt == txt[..open] + txt[open..n - 1] + [txt[n - 1]];
    } else {
      assert txt == txt[..open] + txt[open..stop] + ([txt[stop]] + txt[stop + 1..n - 1]) + [txt[n - 1]];
    }
  }

  /** Building an item from a kind, a readable value and a label, and reading
      it back, gives the same kind, value and label. */
  lemma PartsOfItemText(k: Itemkind, v: string, h: Option<string>)
    requires Readable(k, v)
    ensures SpecialItem(ItemText(k, v, h)).Kind() == k
    ensures SpecialItem(ItemText(k, v, h)).Val() == v
    ensures SpecialItem(ItemText(k, v, h)).Human() == h
  {
    KindOfItemText(k, v, h);
    match h
    case None => UnlabelledItem(k, v);
    case Some(s) => LabelledItem(k, v, s);
  }

  /** The second character of a built item is its sigil, or for `Other` one
      that is not a sigil. */
  lemma KindOfItemText(k: Itemkind, v: string, h: Option<string>)
    requires Readable(k, v)
    ensures |ItemText(k, v, h)| >= 2
    ensures SpecialItem(ItemText(k, v, h)).Kind() == k
  {
    var close := LabelPart(h) + ">";
    var after := Sigil(k) + v + close;
    AfterOpening(k, v, h);
    assert close[0] in "|>";
    if k != Other {
      assert after[0] == Sigil(k)[0];
    } else if |v| > 0 {
      assert after == v + close;
    } else {
      assert after == close;
    }
  }

  /** What follows the `<` of a built item. */
  lemma AfterOpening(k: Itemkind, v: string, h: Option<string>)
    ensures ItemText(k, v, h) == "<" + (Sigil(k) + v + (LabelPart(h) + ">"))
    ensures |ItemText(k, v, h)| >= 2
    ensures ItemText(k, v, h)[1] == (Sigil(k) + v + (LabelPart(h) + ">"))[0]
  {
  }

  /** `(a + b + c)[|a|..|a| + |b|]` is `b`. */
  lemma MiddleSlice(a: string, b: string, c: string)
    ensures (a + b + c)[|a|..|a| + |b|] == b
  {
  }

  /** Without a label, the value runs from the sigil to the closing `>`. */
  lemma UnlabelledItem(k: Itemkind, v: string)
    requires Readable(k, v)
    ensures SpecialItem(ItemText(k, v, None)).Val() == v
    ensures SpecialItem(ItemText(k, v, None)).Human() == None
  {
    var it := SpecialItem(ItemText(k, v, None));
    var open := "<" + Sigil(k);
    KindOfItemText(k, v, None);
    assert it.txt == open + v + ">";
    assert '|' !in it.txt;
    assert it.SepIndex() == -1;
    MiddleSlice(open, v, ">");
    assert it.Val() == it.txt[|open|..|it.txt| - 1];
  }

  /** With a label, the value runs from the sigil to the `|`, and the label
      from the `|` to the closing `>`. */
  lemma LabelledItem(k: Itemkind, v: string, s: string)
    requires Readable(k, v)
    ensures SpecialItem(ItemText(k, v, Some(s))).Val() == v
    ensures SpecialItem(ItemText(k, v, Some(s))).Human() == Some(s)
  {
    LabelledValue(k, v, s);
    LabelledHuman(k, v, s);
  }

  /** A labelled item is its opening, its value, and `|` label `>`. */
  lemma LabelledText(k: Itemkind, v: string, s: string)
    ensures ItemText(k, v, Some(s)) == ("<" + Sigil(k)) + v + ("|" + s + ">")
    ensures ItemText(k, v, Some(s)) == ("<" + Sigil(k) + v + "|") + s + ">"
  {
  }

  /** The separator of a labelled item is the one after its value. */
  lemma LabelledSep(k: Itemkind, v: string, s: string)
    requires Readable(k, v)
    ensures SpecialItem(ItemText(k, v, Some(s))).SepIndex() == |Sigil(k)| + 1 + |v|
  {
    var txt := ItemText(k, v, Some(s));
    var before := "<" + Sigil(k) + v;
    assert txt == before + ("|" + s + ">");
    assert '|' !in before;
    FindSingleAt(before, "|" + s + ">", '|');
  }

  /** The label is what lies between the separator and the closing character. */
  lemma HumanSpan(it: SpecialItem, sep: nat)
    requires it.SepIndex() == sep && |it.txt| >= 2 && it.txt[|it.txt| - 1] == '>'
    ensures sep + 1 <= |it.txt| - 1
    ensures it.Human() == Some(it.txt[sep + 1..|it.txt| - 1])
  {
  }

  /** The value of a labelled item reads back. */
  lemma LabelledValue(k: Itemkind, v: string, s: string)
    requires Readable(k, v)
    ensures SpecialItem(ItemText(k, v, Some(s))).Val() == v
  {
    var it := SpecialItem(ItemText(k, v, Some(s)));
    var open := "<" + Sigil(k);
    LabelledText(k, v, s);
    KindOfItemText(k, v, Some(s));
    LabelledSep(k, v, s);
    var o, stop := ValueSpan(it);
    MiddleSlice(open, v, "|" + s + ">");
  }

  /** The label of a labelled item reads back. */
  lemma LabelledHuman(k: Itemkind, v: string, s: string)
    requires Readable(k, v)
    ensures SpecialItem(ItemText(k, v, Some(s))).Human() == Some(s)
  {
    var it := SpecialItem(ItemText(k, v, Some(s)));
    var before := "<" + Sigil(k) + v + "|";
    LabelledText(k, v, s);
    LabelledSep(k, v, s);
    HumanSpan(it, |before| - 1);
    MiddleSlice(before, s, ">");
  }

  // ---------------------------------------------------------------------
  // Tokens
  // ---------------------------------------------------------------------

  /** A piece of a normal block: a run of plain text or one special item. */
  datatype Token = Plain(text: string) | Special(item: SpecialItem)

  /** The raw text a token was cut from. */
  function Raw(t: Token): string
  {
    match t
    case Plain(s) => s
    case Special(it) => it.txt
  }

  /** The raw texts of the tokens, concatenated in order. */
  function Flatten(ts: seq<Token>): string
    decreases |ts|
  {
    if |ts| == 0 then "" else Raw(ts[0]) + Flatten(ts[1..])
  }

  /** A token as `SplitTokens` yields it: non-empty plain text without `<`,
      or a tag. */
  predicate WellFormedToken(t: Token)
  {
    match t
    case Plain(s) => |s| > 0 && '<' !in s
    case Special(it) => IsTag(it.txt)
  }

  /** The token sequences `SplitTokens` yields: well-formed tokens, and no
      two plain runs in a row (the splitter would have kept them as one). */
  predicate WellFormedTokens(ts: seq<Token>)
    decreases |ts|
  {
    |ts| == 0 ||
    (&& WellFormedToken(ts[0])
     && (|ts| > 1 && ts[0].Plain? ==> ts[1].Special?)
     && WellFormedTokens(ts[1..]))
  }

  /**
    Cuts a text into plain runs and `<...>` items, left to right. An item runs
    from a `<` to the first `>` after it; a trailing plain run is kept only if
    non-empty. `None` stands for the `ValueError` that `index` raises when a
    `<` has no `>` after it.
   */
  function SplitTokens(msg: string): (r: Option<seq<Token>>)
    ensures r.Some? ==> Flatten(r.value) == msg
    ensures r.Some? ==> WellFormedTokens(r.value)
    ensures r.Some? && |msg| > 0 ==> |r.value| > 0 && (msg[0] == '<' ==> r.value[0].Special?)
    decreases |msg|
  {
    FindSingle(msg, '<');
    match Find(msg, "<")
    case None =>
      if msg == "" then Some([]) else Some([Plain(msg)])
    case Some(begin) =>
      if begin != 0 then
        match SplitTokens(msg[begin..])
        case None => None
        case Some(rest) =>
          PlainStep(msg, begin, rest);
          Some([Plain(msg[..begin])] + rest)
      else
        FindSingle(msg, '>');
        match Find(msg, ">")
        case None => None
        case Some(end) =>
          match SplitTokens(msg[end + 1..])
          case None => None
          case Some(rest) =>
            TagStep(msg, end, rest);
            Some([Special(SpecialItem(msg[..end + 1]))] + rest)
  }

  /** The raw text of a token in front of others. */
  lemma FlattenCons(t: Token, ts: seq<Token>)
    ensures Flatten([t] + ts) == Raw(t) + Flatten(ts)
  {
    assert ([t] + ts)[1..] == ts;
  }

  /** A well-formed token in front of well-formed ones, not a plain run
      before a plain run. */
  lemma WellFormedCons(t: Token, ts: seq<Token>)
    requires WellFormedToken(t) && WellFormedTokens(ts)
    requires t.Plain? && |ts| > 0 ==> ts[0].Special?
    ensures WellFormedTokens([t] + ts)
  {
    assert ([t] + ts)[1..] == ts;
  }

  /** The plain-run step of `SplitTokens` keeps its invariants. */
  lemma PlainStep(msg: string, begin: nat, rest: seq<Token>)
    requires 0 < begin < |msg| && msg[begin] == '<' && '<' !in msg[..begin]
    requires Flatten(rest) == msg[begin..] && WellFormedTokens(rest)
    requires |rest| > 0 && rest[0].Special?
    ensures Flatten([Plain(msg[..begin])] + rest) == msg
    ensures WellFormedTokens([Plain(msg[..begin])] + rest)
  {
    PlainStepFlatten(msg, begin, rest);
    WellFormedCons(Plain(msg[..begin]), rest);
  }

  /** The raw text of the plain-run step. */
  lemma PlainStepFlatten(msg: string, begin: nat, rest: seq<Token>)
    requires begin <= |msg| && Flatten(rest) == msg[begin..]
    ensures Flatten([Plain(msg[..begin])] + rest) == msg
  {
    calc {
      Flatten([Plain(msg[..begin])] + rest);
      { FlattenCons(Plain(msg[..begin]), rest); }
      msg[..begin] + msg[begin..];
      msg;
    }
  }

  /** The tag step of `SplitTokens` keeps its invariants. */
  lemma TagStep(msg: string, end: nat, rest: seq<Token>)
    requires end < |msg| && msg[0] == '<' && msg[end] == '>' && '>' !in msg[..end]
    requires Flatten(rest) == msg[end + 1..] && WellFormedTokens(rest)
    ensures Flatten([Special(SpecialItem(msg[..end + 1]))] + rest) == msg
    ensures WellFormedTokens([Special(SpecialItem(msg[..end + 1]))] + rest)
  {
    var block := msg[..end + 1];
    assert block[..end] == msg[..end];
    assert IsTag(block);
    calc {
      Flatten([Special(SpecialItem(block))] + rest);
      { FlattenCons(Special(SpecialItem(block)), rest); }
      block + msg[end + 1..];
      msg;
    }
    WellFormedCons(Special(SpecialItem(block)), rest);
  }

  /** `SplitTokens` on a text without `<`. */
  lemma SplitTokensNoTag(msg: string)
    requires Find(msg, "<").None?
    ensures '<' !in msg
    ensures SplitTokens(msg) == if msg == "" then Some([]) else Some([Plain(msg)])
  {
    FindSingle(msg, '<');
  }

  /** `SplitTokens` on a text with plain text before its first `<`. */
  lemma SplitTokensPlainCut(msg: string, begin: nat)
    requires Find(msg, "<") == Some(begin) && begin != 0
    ensures begin < |msg| && '<' !in msg[..begin]
    ensures SplitTokens(msg).None? <==> SplitTokens(msg[begin..]).None?
    ensures SplitTokens(msg[begin..]).Some? ==>
              SplitTokens(msg) == Some([Plain(msg[..begin])] + SplitTokens(msg[begin..]).value)
  {
    FindSingle(msg, '<');
  }

  /** `SplitTokens` on a text starting with `<`, when a `>` follows. */
  lemma SplitTokensTagCut(msg: string, end: nat)
    requires Find(msg, "<") == Some(0) && Find(msg, ">") == Some(end)
    ensures end < |msg| && msg[end] == '>' && '>' !in msg[..end]
    ensures SplitTokens(msg).None? <==> SplitTokens(msg[end + 1..]).None?
    ensures SplitTokens(msg[end + 1..]).Some? ==>
              SplitTokens(msg) == Some([Special(SpecialItem(msg[..end + 1]))] + SplitTokens(msg[end + 1..]).value)
  {
    FindSingle(msg, '>');
    TagCutUnfold(msg, end);
  }

  /** One unfolding of `SplitTokens` at a leading tag. */
  lemma TagCutUnfold(msg: string, end: nat)
    requires Find(msg, "<") == Some(0) && Find(msg, ">") == Some(end)
    ensures SplitTokens(msg).None? <==> SplitTokens(msg[end + 1..]).None?
    ensures SplitTokens(msg[end + 1..]).Some? ==>
              SplitTokens(msg) == Some([Special(SpecialItem(msg[..end + 1]))] + SplitTokens(msg[end + 1..]).value)
  {
  }

  /** `SplitTokens` on a text starting with `<` and no `>`. */
  lemma SplitTokensUnclosed(msg: string)
    requires Find(msg, "<") == Some(0) && Find(msg, ">").None?
    ensures |msg| > 0 && msg[0] == '<' && '>' !in msg
    ensures SplitTokens(msg).None?
  {
    FindSingle(msg, '<');
    FindSingle(msg, '>');
  }

  /** Some `<` in `s` has no `>` anywhere after it. */
  ghost predicate HasUnclosedTag(s: string)
  {
    exists i :: 0 <= i < |s| && s[i] == '<' && '>' !in s[i + 1..]
  }

  /** Dropping a prefix in which every `<` is closed keeps the text's unclosed tags. */
  lemma UnclosedAfter(s: string, k: nat)
    requires k <= |s|
    requires forall i :: 0 <= i < k && s[i] == '<' ==> '>' in s[i + 1..]
    ensures HasUnclosedTag(s) <==> HasUnclosedTag(s[k..])
  {
    if HasUnclosedTag(s) {
      var i :| 0 <= i < |s| && s[i] == '<' && '>' !in s[i + 1..];
      assert s[k..][i - k] == '<';
      assert s[k..][i - k + 1..] == s[i + 1..];
    }
    if HasUnclosedTag(s[k..]) {
      var i :| 0 <= i < |s[k..]| && s[k..][i] == '<' && '>' !in s[k..][i + 1..];
      assert s[k + i] == '<';
      assert s[k + i + 1..] == s[k..][i + 1..];
    }
  }

  /** `SplitTokens` fails exactly on texts with a `<` that no later `>` closes. */
  lemma {:induction false} SplitTokensFails(msg: string)
    ensures SplitTokens(msg).None? <==> HasUnclosedTag(msg)
    decreases |msg|
  {
    match Find(msg, "<")
    case None =>
      SplitTokensNoTag(msg);
    case Some(begin) =>
      if begin != 0 {
        SplitTokensPlainCut(msg, begin);
        SplitTokensFails(msg[begin..]);
        PlainPrefixClosed(msg, begin);
        UnclosedAfter(msg, begin);
      } else {
        match Find(msg, ">")
        case None =>
          SplitTokensUnclosed(msg);
          assert '>' !in msg[1..];
        case Some(end) =>
          SplitTokensTagCut(msg, end);
          SplitTokensFails(msg[end + 1..]);
          TagPrefixClosed(msg, end);
          UnclosedAfter(msg, end + 1);
      }
  }

  /** A prefix without `<` has no unclosed tag. */
  lemma PlainPrefixClosed(msg: string, k: nat)
    requires k <= |msg| && '<' !in msg[..k]
    ensures forall i :: 0 <= i < k && msg[i] == '<' ==> '>' in msg[i + 1..]
  {
    forall i | 0 <= i < k
      ensures msg[i] != '<'
    {
      assert msg[i] == msg[..k][i];
    }
  }

  /** Every `<` of a tag is closed by the tag's `>`. */
  lemma TagPrefixClosed(msg: string, end: nat)
    requires end < |msg| && msg[end] == '>'
    ensures forall i :: 0 <= i < end + 1 && msg[i] == '<' ==> '>' in msg[i + 1..]
  {
    forall i | 0 <= i < end + 1 && msg[i] == '<'
      ensures '>' in msg[i + 1..]
    {
      assert msg[i + 1..][end - i - 1] == '>';
    }
  }

  /** One step of `SplitFlatten`: a plain run in front of a re-split tail. */
  lemma SplitPlainCons(s: string, rest: seq<Token>)
    requires |s| > 0 && '<' !in s
    requires |rest| > 0 ==> rest[0].Special? && IsTag(rest[0].item.txt)
    requires SplitTokens(Flatten(rest)) == Some(rest)
    ensures SplitTokens(s + Flatten(rest)) == Some([Plain(s)] + rest)
  {
    var tail := Flatten(rest);
    var msg := s + tail;
    if |rest| == 0 {
      assert msg == s;
      FindSingle(msg, '<');
      SplitTokensNoTag(msg);
      assert [Plain(s)] + rest == [Plain(s)];
    } else {
      FlattenCons(rest[0], rest[1..]);
      assert rest == [rest[0]] + rest[1..];
      FindSingleAt(s, tail, '<');
      SplitTokensPlainCut(msg, |s|);
      assert msg[..|s|] == s;
      assert msg[|s|..] == tail;
    }
  }

  /** The first `<` and the first `>` of a tag followed by anything. */
  lemma FindTagEnds(tag: string, tail: string)
    requires IsTag(tag)
    ensures Find(tag + tail, "<") == Some(0)
    ensures Find(tag + tail, ">") == Some(|tag| - 1)
  {
    var msg := tag + tail;
    var n := |tag|;
    FindSingleAt([], msg, '<');
    assert [] + msg == msg;
    assert msg == tag[..n - 1] + ([tag[n - 1]] + tail);
    FindSingleAt(tag[..n - 1], [tag[n - 1]] + tail, '>');
  }

  /** One step of `SplitFlatten`: a tag in front of a re-split tail. */
  lemma SplitSpecialCons(it: SpecialItem, rest: seq<Token>)
    requires IsTag(it.txt)
    requires SplitTokens(Flatten(rest)) == Some(rest)
    ensures SplitTokens(it.txt + Flatten(rest)) == Some([Special(it)] + rest)
  {
    var tail := Flatten(rest);
    var msg := it.txt + tail;
    var n := |it.txt|;
    FindTagEnds(it.txt, tail);
    SplitTokensTagCut(msg, n - 1);
    assert msg[..n] == it.txt;
    assert msg[n..] == tail;
  }

  /** Every token sequence `SplitTokens` can yield is yielded from its own
      raw text: splitting is the inverse of concatenating raw texts. */
  lemma {:induction false} SplitFlatten(ts: seq<Token>)
    requires WellFormedTokens(ts)
    ensures SplitTokens(Flatten(ts)) == Some(ts)
    decreases |ts|
  {
    if |ts| == 0 {
      FindSingle(Flatten(ts), '<');
    } else {
      var rest := ts[1..];
      SplitFlatten(rest);
      assert ts == [ts[0]] + rest;
      match ts[0]
      case Plain(s) => SplitPlainCons(s, rest);
      case Special(it) => SplitSpecialCons(it, rest);
    }
  }
}
