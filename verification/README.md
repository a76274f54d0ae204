# localslackirc string core in Dafny

localslackirc bridges Slack to IRC. This project models the pure string
logic at its centre:

- `MsgParsing`: the chat-markup splitter (`msgparsing.py`).
  - `preblocks` cuts a message at triple-backtick fences into normal and
    preformatted blocks.
  - `split_tokens` cuts a normal block into plain runs and Slack's `<...>`
    special items.
  - `SpecialItem` reads the kind, value and optional label of one item.
- `Diff`: `seddiff` (`diff.py`), the sed-style `s/OLD/NEW/` correction the
  client sends when a Slack message is edited.
  - Both lines are split into words at single spaces.
  - The longest shared leading and trailing runs of words are skipped.
  - Both runs are narrowed by one word when both are non-empty and the word
    counts differ.
  - What lies between is reported.
- `Slack`: the pure accessors of the Slack event records (`slack.py`):
  - the topic a channel shows;
  - whether an edit changed the text;
  - what a deletion reports;
  - the text of a bot message with its attachments folded in.
- `Strings` and `Wrappers`: the Python primitives the code relies on.
  - `find`/`index`, `split` on one character, `join`.
  - Indexing and slicing with negative indices and clipping.
  - `Option`.
- `MsgParsingExamples`: the outputs the unit tests expect, proved.

Every operation is a pure function. Each is paired with an independent
description of its result, and a lemma connects the two:

- `preblocks` with `RemoveFences`, `FenceCount` and re-joining with fences.
  `PreblocksOfJoin` proves it is one-to-one on the block sequences it can
  produce.
- `split_tokens` with concatenation of raw texts. `SplitFlatten` proves it
  inverts concatenation.
- The item accessors with `ItemText`, which builds an item from its parts.
  The two lemmas go both ways.
- `seddiff` with the common-prefix and common-suffix definitions, and with
  re-assembly of the lines from the window.
- `MessageBot.text` with its split into lines.

Python's generators become eagerly built sequences. An exception that
ends a generator becomes `None`.

## Edge cases

- `SpecialItem.kind` indexes `txt[1]`, so `Kind` and `Val` require at least
  two characters. `Human` needs no precondition. The shortest items `<>` and
  `<!>` are handled; see `SpecialItemEmpty`.
- `Preblocks` removes the fences a left-to-right scan meets. They never
  overlap, so four backticks in a row lose three.

## Model

| member | source | states |
|---|---|---|
| Strings.Find | msgparsing.py:36 | `index`/`find` returns the lowest position where the pattern occurs, and nothing exactly when it does not occur |
| Strings.Split | diff.py:37-38 | `split` on one character yields at least one piece, and no piece contains the separator |
| Strings.Join | diff.py:64 | `sep.join(parts)` is empty for no parts and starts with the first part; JoinLast, JoinSplit, SplitJoin and JoinAppend show it ends with the last part, inverts `split` and splits over concatenation |
| Strings.JoinLast | slack.py:228 | `sep.join(parts)` ends with the last part |
| Strings.JoinSplit | diff.py:37-38 | joining the pieces of a split with the separator gives back the text |
| Strings.SplitJoin | slack.py:226-228 | splitting a join of separator-free pieces gives back the pieces |
| Strings.JoinAppend | slack.py:219-228 | joining two non-empty lists puts one separator between their joins |
| Strings.ClipBound | diff.py:64 | a slice bound counts from the end when negative and is clipped into the list |
| Strings.PySlice | diff.py:64 | `l[start:stop]` is the plain slice inside the bounds, runs to the end for an omitted stop, and is empty for crossed bounds |
| Strings.PyIndex | diff.py:40-52 | `l[i]` is defined exactly for `-len <= i < len`, and a negative index counts from the end |
| MsgParsing.Preblocks | msgparsing.py:23-43 | at least one block; flags alternate starting from normal; no block holds a fence; no block but the last ends in a backtick |
| MsgParsing.PreblocksFrom | msgparsing.py:34-43 | the loop from any starting flag yields a well-formed block sequence |
| MsgParsing.PreblocksCut | msgparsing.py:36-42 | one loop step: the text before the first fence is a block, and the loop resumes after the fence with the flag flipped |
| MsgParsing.PreblocksRemoveFences | msgparsing.py:34-43 | the block texts, concatenated, are the message with every fence removed |
| MsgParsing.PreblocksCount | msgparsing.py:34-43 | there is exactly one block more than there are fences |
| MsgParsing.PreblocksRejoin | msgparsing.py:36-43 | putting a fence back between consecutive blocks gives back the message |
| MsgParsing.PreblocksLastPre | msgparsing.py:41-43 | the last block is preformatted exactly when the number of fences is odd, so an unterminated fence leaves it preformatted |
| MsgParsing.PreblocksShape | msgparsing.py:23-43 | the four block properties above, for a whole message |
| MsgParsing.PreblocksOfJoin | msgparsing.py:34-43 | every well-formed block sequence is what the splitter yields for its own fenced join |
| MsgParsing.SpecialItem.Kind | msgparsing.py:56-65 | `!` gives a group mention, `@` a mention, `#` a channel, and any other second character `Other` |
| MsgParsing.SpecialItem.SepIndex | msgparsing.py:73 | the first bar of the raw text, or -1 exactly when there is none |
| MsgParsing.SpecialItem.Val | msgparsing.py:67-82 | the value contains no bar and is shorter than the raw text by at least two |
| MsgParsing.SpecialItem.Human | msgparsing.py:84-94 | the label is absent exactly when the raw text has no bar |
| MsgParsing.ValueSpan | msgparsing.py:73-82 | the value is the raw text from after `<` and the sigil up to the first bar, or up to the last character without one |
| MsgParsing.HumanSpan | msgparsing.py:90-94 | the label is the raw text between the first bar and the last character |
| MsgParsing.SpecialItemParts | msgparsing.py:56-94 | a bracketed item is exactly `<`, the sigil, the value, a bar and the label if present, and `>` |
| MsgParsing.PartsOfItemText | msgparsing.py:56-94 | an item built from a kind, a readable value and a label reads back the same kind, value and label |
| MsgParsing.KindOfItemText | msgparsing.py:56-65 | an item built with a kind's sigil reads back that kind |
| MsgParsing.UnlabelledItem | msgparsing.py:73-94 | without a bar the value runs to the closing character and there is no label |
| MsgParsing.LabelledItem | msgparsing.py:73-94 | with a bar the value runs to the separator and the label from it to the closing character |
| MsgParsing.SplitTokens | msgparsing.py:97-117 | on success the raw texts of the tokens concatenate to the input; plain runs are non-empty without `<` and never adjacent; items are `<`, no `>`, then `>` |
| MsgParsing.PlainStep | msgparsing.py:108-110 | the plain-run step keeps the concatenation and the token shapes |
| MsgParsing.TagStep | msgparsing.py:111-115 | the tag step keeps the concatenation and the token shapes |
| MsgParsing.SplitTokensNoTag | msgparsing.py:102-117 | a text without `<` is one plain run, or no token when empty |
| MsgParsing.SplitTokensPlainCut | msgparsing.py:108-110 | text before the first `<` becomes a plain run, followed by the tokens of the rest |
| MsgParsing.SplitTokensTagCut | msgparsing.py:111-115 | a leading `<` up to the first `>` becomes an item, followed by the tokens of the rest |
| MsgParsing.SplitTokensUnclosed | msgparsing.py:112 | a leading `<` with no `>` anywhere fails |
| MsgParsing.SplitTokensFails | msgparsing.py:102-115 | splitting fails exactly when some `<` has no `>` after it |
| MsgParsing.SplitFlatten | msgparsing.py:97-117 | every token sequence the splitter can yield is yielded for its own concatenated raw text |
| MsgParsingExamples.PreblocksNoFence | tests/test_msgparsing.py:25-26 | `''` and `'asd'` are single normal blocks |
| MsgParsingExamples.PreblocksInner | tests/test_msgparsing.py:27 | the fenced `a` between `a ` and ` a` gives normal, preformatted, normal blocks |
| MsgParsingExamples.PreblocksLeading | tests/test_msgparsing.py:28 | a leading fence gives an empty first block |
| MsgParsingExamples.PreblocksUnterminated | tests/test_msgparsing.py:29 | an unterminated fence leaves the last block preformatted |
| MsgParsingExamples.Blocks | msgparsing.py:34-43 | alternating backtick-free blocks are what the splitter yields for their fenced join |
| MsgParsingExamples.SplitTokensPlain | tests/test_msgparsing.py:32 | `a b c d` is one plain run |
| MsgParsingExamples.SplitTokensTags | tests/test_msgparsing.py:33 | `a <b> <c> d` is five tokens, alternating plain runs and items |
| MsgParsingExamples.SpecialItemMention | tests/test_msgparsing.py:36-39 | `<@ciccio>` is a mention of `ciccio` with no label |
| MsgParsingExamples.SpecialItemLink | tests/test_msgparsing.py:41-44 | the item `http://ciccio` labelled `link` is `Other`, value `http://ciccio`, label `link` |
| MsgParsingExamples.SpecialItemChannel | tests/test_msgparsing.py:46-49 | `<#ciccio>` is a channel `ciccio` with no label |
| MsgParsingExamples.SpecialItemGroupMention | tests/test_msgparsing.py:51-54 | `<!here>` is a group mention `here` with no label |
| MsgParsingExamples.SpecialItemEmpty | msgparsing.py:56-94 | `<>` is `Other` and `<!>` a group mention, both with empty value and no label |
| Diff.Words | diff.py:37-38 | a line has at least one word, and its words joined with spaces give back the line |
| Diff.WordsInjective | diff.py:37-38 | different lines have different words |
| Diff.WordsOf | diff.py:37-38 | the words of a join of space-free words are those words |
| Diff.PrefixScan | diff.py:40-45 | the leading scan stops at the length of the longest shared leading run |
| Diff.PostfixScan | diff.py:46-52 | the trailing scan stops one past the length of the longest shared trailing run |
| Diff.CommonPrefixUnique | diff.py:40-45 | the longest shared leading run is unique |
| Diff.CommonSuffixUnique | diff.py:46-52 | the longest shared trailing run is unique |
| Diff.Narrow | diff.py:56-58 | both runs shrink by one word exactly when both are non-empty and the counts differ |
| Diff.CorrectionWindow | diff.py:40-58 | the window lies within both lists and is the narrowing of the two longest shared runs |
| Diff.WindowRuns | diff.py:40-58 | the window is the narrowing of some pair of longest shared leading and trailing runs |
| Diff.Inside | diff.py:59-64 | the words strictly inside the window; none when the runs overlap |
| Diff.WindowSlice | diff.py:59-64 | `l[prefix:px]` with `px = None` for a zero postfix and `-postfix` otherwise is the inside of the window |
| Diff.OldText | diff.py:64 | the old side is the joined words, or `$` exactly when they are empty |
| Diff.Seddiff | diff.py:26-64 | empty exactly for equal lines; otherwise `s/`, the old inside (or `$`), `/`, the new inside, `/` |
| Diff.SeddiffFrame | diff.py:64 | a correction of a changed line starts with `s/` and ends with `/` |
| Diff.SeddiffPatch | diff.py:56-64 | when the runs do not overlap, the old words are prefix + old inside + suffix, and the new words are the same prefix + new inside + same suffix |
| Diff.CorrectionPatch | diff.py:56-64 | the same, for any two word lists |
| Diff.WindowPatch | diff.py:56-64 | a window within shared runs leaves out only shared words |
| Diff.SameCountNoOverlap | diff.py:40-58 | for different lines with the same number of words, the runs leave at least one word between them |
| Diff.RunsDisjoint | diff.py:40-52 | longest shared runs of different equal-length lists do not meet |
| Diff.MiddleWordWindow | diff.py:40-58 | a substituted middle word gives a window of one word on each side |
| Diff.SeddiffMiddleWord | diff.py:26-64 | replacing the middle of three words reports just that word: `s/y/u/` |
| Diff.InsertedWordWindow | diff.py:40-58 | a word inserted between two narrows both runs to nothing |
| Diff.SeddiffInsertedWord | diff.py:26-64 | inserting a word between two reports the whole lines |
| Slack.Channel.RealTopic | slack.py:119-125 | the topic when it is non-empty, otherwise the purpose |
| Slack.RealTopicChoice | slack.py:119-125 | no topic is shown exactly when both topic and purpose are empty, and the shown text is one of the two |
| Slack.MessageEdit.IsChanged | slack.py:165-167 | an edit counts exactly when the text differs |
| Slack.EditCorrection | slack.py:165-167 | an edit counts exactly when its correction is non-empty, and then the correction starts with `s/` |
| Slack.MessageDelete.ThreadTs | slack.py:178-180 | the thread of the removed message |
| Slack.MessageDelete.User | slack.py:182-184 | the author of the removed message |
| Slack.MessageDelete.Text | slack.py:186-188 | the text of the removed message |
| Slack.DeleteForwards | slack.py:178-188 | the three accessors together give back the removed message |
| Slack.Content | slack.py:221-225 | `text` if present, else `fallback` if present, else empty |
| Slack.Quote | slack.py:227 | each line gets a bar and a space in front |
| Slack.AttachmentLines | slack.py:221-227 | an attachment adds at least one line, each a bar, a space and a text without a line break |
| Slack.QuotedLines | slack.py:220-227 | at least as many quoted lines as attachments, every one a quoted line |
| Slack.QuotedLinesAppend | slack.py:220-227 | each attachment adds its own lines after those of the attachments before it, so the lines follow attachment order |
| Slack.MessageBot.Text | slack.py:217-228 | the text starts with the body |
| Slack.BotTextNoAttachments | slack.py:218-228 | without attachments the text is the body |
| Slack.BotTextAppend | slack.py:220-228 | one more attachment appends a line break and its quoted lines |
| Slack.BotTextLines | slack.py:219-228 | for a one-line body, the lines of the text are the body and then the quoted lines, in attachment order |
| Slack.AttachmentLinesContent | slack.py:226-227 | stripping a bar and a space from an attachment's lines and joining them gives back its content |
| Slack.EmptyAttachmentLine | slack.py:221-227 | an attachment with neither `text` nor `fallback` adds one line holding only a bar and a space |
| Slack.TextBeforeFallback | slack.py:222-225 | `text` hides `fallback` |

## Left out

- The `Slack` client class in `slack.py` is not modelled: login, history, API calls, the websocket event loop, caches and `_sent_by_self`. It is asynchronous network I/O with wall-clock time and JSON loading.
- `log.py` is not part of this model. It only detects terminals and prints to the console or syslog.
- The two `print` calls in `seddiff` (diff.py:61-62) are left out. They are console output and do not affect the result.
- `_SEPARATORS` (diff.py:23) is left out because nothing reads it.
- `LatestMessage.timestamp` and `Channel.latest` are left out. They convert float timestamps to dates.
- `Channel.name` is left out; it only renames `name_normalized`.
- The records other than `Channel`, `MessageEdit`, `MessageDelete` and `MessageBot` are left out: `MessageThread`, `Message`, `File`, `Profile`, `UserTyping` and the rest. They hold fields with no logic beyond forwarding a field.
- The `files` fields and the loader's field-name metadata (`previous_message`, `message`, `text`) are left out. They only shape JSON decoding.
- Slack.Attachment: attachment values are strings. Only the `text` and `fallback` entries are read, and a non-string value is outside the model.
- MsgParsing.SplitTokens: on a `<` with no `>`, the Python generator has already yielded the tokens before it. The model returns `None` without them.
- `preblocks` and `split_tokens` are generators. The model builds their whole output at once; laziness is not modelled.
- `tests/test_re.py` and `tests/test_irc.py` exercise the `irc` module, which is not part of this model.
