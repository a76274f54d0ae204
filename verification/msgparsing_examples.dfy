/**
  The expected outputs of the markup splitter on the sample messages its
  unit tests use.
 */
module MsgParsingExamples {
  import opened Wrappers
  import opened Strings
  import opened MsgParsing

  /** A text without backticks holds no fence and does not end in one. */
  lemma NoTicks(s: string)
    requires '`' !in s
    ensures !Contains(s, Fence) && !EndsInTick(s)
  {
    forall i | 0 <= i <= |s|
      ensures !OccursAt(s, Fence, i)
    {
      if i + 3 <= |s| {
        assert s[i..i + 3][0] == s[i];
      }
    }
  }

  /** Alternating backtick-free blocks, starting with a normal one, are what
      `Preblocks` gives for their fenced join. */
  lemma Blocks(bs: seq<Block>, msg: string)
    requires |bs| >= 1
    requires forall i :: 0 <= i < |bs| ==> bs[i].pre == (i % 2 == 1) && '`' !in bs[i].text
    requires Join(Fence, Texts(bs)) == msg
    ensures Preblocks(msg) == bs
  {
    forall i | 0 <= i < |bs| { NoTicks(bs[i].text); }
    PreblocksOfJoin(bs, false);
  }

  /** A message without fences is one normal block, even when empty. */
  lemma PreblocksNoFence()
    ensures Preblocks("") == [Block("", false)]
    ensures Preblocks("asd") == [Block("asd", false)]
  {
    Blocks([Block("", false)], "");
    Blocks([Block("asd", false)], "asd");
  }

  /** A fenced run inside a message is a preformatted block between two normal ones. */
  lemma PreblocksInner()
    ensures Preblocks("a ```a``` a") == [Block("a ", false), Block("a", true), Block(" a", false)]
  {
    var bs := [Block("a ", false), Block("a", true), Block(" a", false)];
    assert Texts(bs) == ["a ", "a", " a"];
    assert ["a ", "a", " a"][1..] == ["a", " a"];
    assert ["a", " a"][1..] == [" a"];
    Blocks(bs, "a ```a``` a");
  }

  /** A fence at the very start gives an empty normal block first. */
  lemma PreblocksLeading()
    ensures Preblocks("```a``` a") == [Block("", false), Block("a", true), Block(" a", false)]
  {
    var bs := [Block("", false), Block("a", true), Block(" a", false)];
    assert Texts(bs) == ["", "a", " a"];
    assert ["", "a", " a"][1..] == ["a", " a"];
    assert ["a", " a"][1..] == [" a"];
    Blocks(bs, "```a``` a");
  }

  /** An unterminated fence leaves the last block preformatted. */
  lemma PreblocksUnterminated()
    ensures Preblocks("```a") == [Block("", false), Block("a", true)]
  {
    var bs := [Block("", false), Block("a", true)];
    assert Texts(bs) == ["", "a"];
    assert ["", "a"][1..] == ["a"];
    Blocks(bs, "```a");
  }

  /** Text without `<` is a single plain run. */
  lemma SplitTokensPlain()
    ensures SplitTokens("a b c d") == Some([Plain("a b c d")])
  {
    var ts := [Plain("a b c d")];
    assert Flatten(ts) == "a b c d";
    SplitFlatten(ts);
  }

  /** Tags are cut out of the text between them, in order. */
  lemma SplitTokensTags()
    ensures SplitTokens("a <b> <c> d") ==
              Some([Plain("a "), Special(SpecialItem("<b>")), Plain(" "), Special(SpecialItem("<c>")), Plain(" d")])
  {
    var ts := [Plain("a "), Special(SpecialItem("<b>")), Plain(" "), Special(SpecialItem("<c>")), Plain(" d")];
    assert ts[1..][1..][1..][1..][1..] == [];
    assert Flatten(ts[1..][1..][1..][1..]) == " d";
    assert Flatten(ts[1..][1..][1..]) == "<c> d";
    assert Flatten(ts[1..][1..]) == " <c> d";
    assert Flatten(ts[1..]) == "<b> <c> d";
    assert Flatten(ts) == "a <b> <c> d";
    assert WellFormedTokens(ts);
    SplitFlatten(ts);
  }

  /** A user mention: the value is what follows `@`, with no label. */
  lemma SpecialItemMention()
    ensures SpecialItem("<@ciccio>").Kind() == Mention
    ensures SpecialItem("<@ciccio>").Human() == None
    ensures SpecialItem("<@ciccio>").Val() == "ciccio"
  {
    assert ItemText(Mention, "ciccio", None) == "<@ciccio>";
    PartsOfItemText(Mention, "ciccio", None);
  }

  /** A link: the value runs from `<` to `|`, the label from `|` to `>`. */
  lemma SpecialItemLink()
    ensures SpecialItem("<http://ciccio|link>").Kind() == Other
    ensures SpecialItem("<http://ciccio|link>").Human() == Some("link")
    ensures SpecialItem("<http://ciccio|link>").Val() == "http://ciccio"
  {
    assert ItemText(Other, "http://ciccio", Some("link")) == "<http://ciccio|link>";
    PartsOfItemText(Other, "http://ciccio", Some("link"));
  }

  /** A channel reference: the value is what follows `#`. */
  lemma SpecialItemChannel()
    ensures SpecialItem("<#ciccio>").Kind() == Channel
    ensures SpecialItem("<#ciccio>").Human() == None
    ensures SpecialItem("<#ciccio>").Val() == "ciccio"
  {
    assert ItemText(Channel, "ciccio", None) == "<#ciccio>";
    PartsOfItemText(Channel, "ciccio", None);
  }

  /** A group mention: the value is what follows `!`. */
  lemma SpecialItemGroupMention()
    ensures SpecialItem("<!here>").Kind() == GroupMention
    ensures SpecialItem("<!here>").Human() == None
    ensures SpecialItem("<!here>").Val() == "here"
  {
    assert ItemText(GroupMention, "here", None) == "<!here>";
    PartsOfItemText(GroupMention, "here", None);
  }

  /** The empty items `<>` and `<!>`: `Other` and a group mention, both with
      an empty value and no label. */
  lemma SpecialItemEmpty()
    ensures SpecialItem("<>").Kind() == Other
    ensures SpecialItem("<>").Val() == "" && SpecialItem("<>").Human() == None
    ensures SpecialItem("<!>").Kind() == GroupMention
    ensures SpecialItem("<!>").Val() == "" && SpecialItem("<!>").Human() == None
  {
    assert ItemText(Other, "", None) == "<>";
    PartsOfItemText(Other, "", None);
    assert ItemText(GroupMention, "", None) == "<!>";
    PartsOfItemText(GroupMention, "", None);
  }
}
