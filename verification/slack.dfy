/**
  The pure accessors on the Slack event records the client loads: the topic a
  channel shows, whether an edit changed the text, what a deletion reports,
  and the text of a bot message with its attachments folded in.
 */
module Slack {
  import opened Wrappers
  import opened Strings
  import Diff

  /** A topic or purpose; Slack sends more fields, only the value is used. */
  datatype Topic = Topic(value: string)

  /** A channel description, as loaded from the Slack API. */
  datatype Channel = Channel(
    id: string,
    nameNormalized: string,
    purpose: Topic,
    topic: Topic,
    numMembers: int,
    isMember: bool,
    isChannel: bool,
    isGroup: bool,
    isMpim: bool)
  {
    /** The topic shown on IRC: the topic, or the purpose when the topic is empty. */
    function RealTopic(): (t: string)
      ensures topic.value != "" ==> t == topic.value
      ensures topic.value == "" ==> t == purpose.value
    {
      if topic.value != "" then topic.value else purpose.value
    }
  }

  /** A channel shows no topic exactly when both its topic and its purpose are
      empty, and what it shows is always one of the two. */
  lemma RealTopicChoice(c: Channel)
    ensures c.RealTopic() == "" <==> c.topic.value == "" && c.purpose.value == ""
    ensures c.RealTopic() == c.topic.value || c.RealTopic() == c.purpose.value
  {
  }

  /** A message as it appears inside an edit or deletion event. */
  datatype NoChanMessage = NoChanMessage(user: string, text: string, threadTs: Option<string>)

  /** A `message_changed` event: the message before and after the edit. */
  datatype MessageEdit = MessageEdit(channel: string, previous: NoChanMessage, current: NoChanMessage)
  {
    /** The edit changed the text; edits of other fields do not count. */
    function IsChanged(): (b: bool)
      ensures b <==> previous.text != current.text
    {
      previous.text != current.text
    }
  }

  /** An edit changes the text exactly when its sed-style correction is non-empty. */
  lemma EditCorrection(e: MessageEdit)
    ensures e.IsChanged() <==> Diff.Seddiff(e.previous.text, e.current.text) != ""
    ensures e.IsChanged() ==> Diff.Seddiff(e.previous.text, e.current.text)[..2] == "s/"
  {
    if e.IsChanged() {
      Diff.SeddiffFrame(e.previous.text, e.current.text);
    }
  }

  /** A `message_deleted` event, carrying the message that was removed. */
  datatype MessageDelete = MessageDelete(channel: string, previousMessage: NoChanMessage)
  {
    /** The thread of the removed message. */
    function ThreadTs(): (ts: Option<string>)
      ensures ts == previousMessage.threadTs
    {
      previousMessage.threadTs
    }

    /** The author of the removed message. */
    function User(): (u: string)
      ensures u == previousMessage.user
    {
      previousMessage.user
    }

    /** The text of the removed message. */
    function Text(): (t: string)
      ensures t == previousMessage.text
    {
      previousMessage.text
    }
  }

  /** The three accessors of a deletion lose nothing: together they give back
      the removed message. */
  lemma DeleteForwards(d: MessageDelete)
    ensures NoChanMessage(d.User(), d.Text(), d.ThreadTs()) == d.previousMessage
  {
  }

  /** An attachment of a bot message; only its `text` and `fallback` entries are read. */
  type Attachment = map<string, string>

  /** The content of an attachment: `text` when present, else `fallback`,
      else nothing. */
  function Content(a: Attachment): (t: string)
    ensures "text" in a ==> t == a["text"]
    ensures "text" !in a && "fallback" in a ==> t == a["fallback"]
    ensures "text" !in a && "fallback" !in a ==> t == ""
  {
    if "text" in a then a["text"]
    else if "fallback" in a then a["fallback"]
    else ""
  }

  /** A line shown as quoted: `"| "` followed by one line with no line break. */
  predicate IsQuotedLine(l: string)
  {
    |l| >= 2 && l[..2] == "| " && '\n' !in l[2..]
  }

  /** Each of `lines` with `"| "` in front. */
  function Quote(lines: seq<string>): (r: seq<string>)
    ensures |r| == |lines|
    ensures forall i :: 0 <= i < |r| ==> r[i] == "| " + lines[i]
  {
    seq(|lines|, i requires 0 <= i < |lines| => "| " + lines[i])
  }

  /** The quoted lines one attachment adds: one per line of its content. */
  function AttachmentLines(a: Attachment): (ls: seq<string>)
    ensures |ls| >= 1
    ensures forall i :: 0 <= i < |ls| ==> IsQuotedLine(ls[i])
  {
    var lines := Split(Content(a), '\n');
    var r := Quote(lines);
    forall i | 0 <= i < |r|
      ensures IsQuotedLine(r[i])
    {
      assert r[i][2..] == lines[i];
    }
    r
  }

  /** The quoted lines of all attachments, in order. */
  function QuotedLines(atts: seq<Attachment>): (ls: seq<string>)
    ensures |ls| >= |atts|
    ensures forall i :: 0 <= i < |ls| ==> IsQuotedLine(ls[i])
  {
    if |atts| == 0 then []
    else QuotedLines(atts[..|atts| - 1]) + AttachmentLines(atts[|atts| - 1])
  }

  /** One more attachment adds its own quoted lines after those of the others. */
  lemma QuotedLinesAppend(atts: seq<Attachment>, a: Attachment)
    ensures QuotedLines(atts + [a]) == QuotedLines(atts) + AttachmentLines(a)
  {
    assert (atts + [a])[..|atts|] == atts;
  }

  /** A `bot_message` event; `body` is the message's own `text` field. */
  datatype MessageBot = MessageBot(
    body: string,
    username: string,
    channel: string,
    botId: Option<string>,
    attachments: seq<Attachment>,
    threadTs: Option<string>)
  {
    /** The text shown for a bot message: the body, then the quoted lines of
        every attachment, joined with line breaks. */
    function Text(): (t: string)
      ensures |t| >= |body|
      ensures t[..|body|] == body
    {
      var ls := [body] + QuotedLines(attachments);
      assert ls[1..] == QuotedLines(attachments);
      Join("\n", ls)
    }
  }

  /** Without attachments the text is the body. */
  lemma BotTextNoAttachments(m: MessageBot)
    requires m.attachments == []
    ensures m.Text() == m.body
  {
    assert [m.body] + QuotedLines(m.attachments) == [m.body];
  }

  /** One more attachment adds its quoted lines after a line break. */
  lemma BotTextAppend(m: MessageBot, a: Attachment)
    ensures m.(attachments := m.attachments + [a]).Text()
            == m.Text() + "\n" + Join("\n", AttachmentLines(a))
  {
    var atts := m.attachments + [a];
    QuotedLinesAppend(m.attachments, a);
    assert [m.body] + QuotedLines(atts) == ([m.body] + QuotedLines(m.attachments)) + AttachmentLines(a);
    JoinAppend("\n", [m.body] + QuotedLines(m.attachments), AttachmentLines(a));
  }

  /** Removing the `"| "` of an attachment's lines and joining them with line
      breaks gives back its content. */
  lemma AttachmentLinesContent(a: Attachment)
    ensures var ls := AttachmentLines(a);
            Join("\n", seq(|ls|, i requires 0 <= i < |ls| => ls[i][2..])) == Content(a)
  {
    var lines := Split(Content(a), '\n');
    var ls := AttachmentLines(a);
    var stripped := seq(|ls|, i requires 0 <= i < |ls| => ls[i][2..]);
    assert stripped == lines by {
      forall i | 0 <= i < |ls|
        ensures stripped[i] == lines[i]
      {
        assert ls[i] == "| " + lines[i];
      }
    }
    JoinSplit(Content(a), '\n');
  }

  /** An attachment with neither `text` nor `fallback` adds one bare `"| "` line. */
  lemma EmptyAttachmentLine(a: Attachment)
    requires "text" !in a && "fallback" !in a
    ensures AttachmentLines(a) == ["| "]
  {
    assert Split("", '\n') == [""];
    var r := Quote([""]);
    assert r[0] == "| " + "" == "| ";
  }

  /** When the body is a single line, the lines of the text are the body and
      then the quoted lines of the attachments, in order. */
  lemma BotTextLines(m: MessageBot)
    requires '\n' !in m.body
    ensures Split(m.Text(), '\n') == [m.body] + QuotedLines(m.attachments)
  {
    var ls := [m.body] + QuotedLines(m.attachments);
    forall i | 0 <= i < |ls|
      ensures '\n' !in ls[i]
    {
      if i > 0 {
        var l := ls[i];
        assert IsQuotedLine(l);
        assert l == l[..2] + l[2..];
      }
    }
    SplitJoin(ls, '\n');
  }

  /** An attachment's `text` hides its `fallback`. */
  lemma TextBeforeFallback(a: Attachment, t: string, f: string)
    ensures AttachmentLines(a["text" := t]["fallback" := f]) == AttachmentLines(a["text" := t])
  {
  }
}
