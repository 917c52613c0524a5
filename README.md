# TGBotStory core in Dafny

TGBotStory is a Telegram bot that serves short stories written as HTML files
and lets readers rate them. This project models the parts of `bot.py` that
hold the bot's logic. It leaves out the Telegram, file and parser glue around
them. There are six modelled parts:

- **Markup renderer** (`markup.dfy`, module `Markup`). `process_element` turns
  a parsed HTML element into Telegram HTML text:
  - `h1`/`h2` become bold and `h3` italic;
  - a paragraph gets inline `<b>`/`<i>` for `strong`/`em`;
  - list items become bullets indented two spaces per nesting level.

  The parsed document is a closed tree `Node = Text | Element`.
  `get_text(strip=True)` is a recursive function over that tree. The
  `AttributeError` raised by a list item that has a nested list but no direct
  text child is the result `NoneHasNoStrip`.
- **Normalisation** (`normalise.dfy`, module `Normalise`). `read_html_file`
  renders the content root's block children. It then:
  - collapses runs of blank lines to one empty line;
  - right-trims every line and trims the whole text;
  - replaces an empty result with `"Контент не найден."`.

  The collapse loop is a method proved against a filter-style specification.
- **Pagination** (`paginate.dfy`, module `Paginate`). A story too long for one
  message is cut into 4096-character slices. The first slice edits the menu
  message, the others are sent as replies, and only the last one carries the
  rating keyboard.
- **Callback codec** (`callback.dfy`, module `Callback`). A rating button
  carries `rate_<story id>_<score>`. The handler splits the data on `_`, reads
  the score from the last piece and rejoins the middle pieces into the id.
- **Menu layout** (`keyboard.dfy`, module `Keyboard`). `create_keyboard` packs
  the story buttons two to a row. A label longer than 20 characters gets a row
  of its own.
- **Ratings** (`ratings.dfy`, module `Ratings`). Each story has a record with
  `votes` (every score currently counted) and `user_votes` (each user's
  current score).
  - The vote update creates or patches the record, refuses a repeat of the
    same score, and replaces a changed score.
  - `get_average_rating` aggregates the scores.
  - The central invariant is that the multiset of `votes` equals the multiset
    of the `user_votes` values. Every vote keeps it.
  - The store is a `map<string, Record>` held by the class `RatingStore`. Its
    methods update the store in place, as the bot's load-modify-save does.

`pytext.dfy` (module `PyText`) states the Python string operations these
parts rely on:
- `str.isspace`, `strip`, `rstrip`;
- `splitlines`, with `\r\n` as one boundary;
- `split` and `join` on one character;
- `int()` on ASCII input.

The model follows what `bot.py` does, edge cases included:
- paginating the empty text gives no slices at all, not one empty slice
  (bot.py:276, bot.py:386);
- a paragraph with inline markup keeps only its `strong`, `em` and text
  children, each stripped on its own, so the words around a tag run together
  (bot.py:138-144);
- the head line of a list item with a nested list is only its first direct
  text child, stripped (bot.py:151);
- a file whose rendering is whitespace only reads as the not-found sentinel,
  and a list item with a nested list but no direct text child makes the whole
  file read as the `AttributeError` message (bot.py:186, bot.py:206-209).

## Model

| member | source | states |
|---|---|---|
| PyText.Strip | bot.py:127 | `strip()` gives the slice of its input that starts where `lstrip()` stops, neither begins nor ends with whitespace, and leaves only whitespace after it |
| PyText.RStrip | bot.py:198 | `rstrip()` gives the prefix of its input that does not end in whitespace, and only whitespace follows it |
| PyText.SplitLines | bot.py:193 | `splitlines()` cuts at every line boundary, `\r\n` counting as one, with no line for a final boundary |
| PyText.Split | bot.py:299 | `split('_')` cuts at every `_` and always gives at least one piece |
| PyText.Join | bot.py:306 | `'_'.join(parts)` puts one separator between consecutive pieces |
| PyText.StripEmptyIffBlank | bot.py:197 | `line.strip()` is empty exactly when the line is whitespace only |
| PyText.SplitLinesNoBreak | bot.py:193 | no line produced by `splitlines()` contains a line boundary |
| PyText.SplitSeveralIff | bot.py:299-300 | `split('_')` gives more than one piece exactly when the text holds a `_` |
| PyText.JoinSplit | bot.py:299-306 | `'_'.join(s.split('_'))` gives back `s` |
| PyText.SplitAround | bot.py:299 | splitting `a + '_' + b` gives the pieces of `a` followed by the pieces of `b` |
| PyText.ParseInt | bot.py:311 | `int()` succeeds only on text that holds a digit |
| PyText.ParseIntOf | bot.py:310-311 | `int()` of blank padding around one or more ASCII digits, with or without a `+` or `-` in front, is the signed decimal value of the digits |
| PyText.ParseIntSound | bot.py:310-314 | whatever `int()` accepts is blank padding around such a signed run of digits, and the value returned is that run's value |
| PyText.ParseDigit | bot.py:311 | `int()` of one ASCII digit is that digit's value |
| Markup.Indent | bot.py:149 | the indent for nesting level `n` is `2n` spaces |
| Markup.HasTagBelow | bot.py:137 | `element.find(names)` succeeds exactly when some tag strictly below the element, at any depth, has one of the names (also bot.py:150) |
| Markup.GetText | bot.py:131 | `get_text(strip=True)` concatenates the stripped text nodes of the subtree in document order |
| Markup.InlinePiece | bot.py:139-144 | what one paragraph child adds: `<b>`/`<i>` around the stripped text of `strong`/`em`, a text node stripped, any other tag nothing |
| Markup.Inline | bot.py:138-144 | the paragraph loop's text after its first `k` children: their inline pieces in order |
| Markup.Render | bot.py:125-164 | `process_element(e, level)` as a value: the branch per tag name, the stripped text of a text node, `""` for other tags, and the AttributeError result |
| Markup.RenderItem | bot.py:148-156 | the `li` branch: a plain bullet line, or the first direct text as head line followed by the nested lists one level deeper |
| Markup.RenderList | bot.py:157-162 | the `ul`/`ol` branch: the `li` children rendered at the same level, then `\n` at level 0 |
| Markup.Sublists | bot.py:152-154 | the `ul`/`ol` children of a list item rendered one level deeper, concatenated in order; the first AttributeError ends it |
| Markup.Items | bot.py:158-160 | the `li` children of a list rendered at the list's level, concatenated in order; the first AttributeError ends it |
| Markup.FirstDirectText | bot.py:151 | a text child is found exactly when one exists among the direct children, and the one found is the first of them |
| Markup.GetTextTrimmed | bot.py:131 | `get_text(strip=True)` never begins or ends with whitespace |
| Markup.ProcessElement | bot.py:125-164 | the text-accumulating renderer returns exactly the rendering `Render` specifies, the AttributeError case included |
| Markup.ProcessParagraph | bot.py:136-147 | a paragraph with a `strong`/`em` below it renders child by child; one without renders as its stripped text; both end in `\n\n` |
| Markup.ProcessInline | bot.py:137-144 | the loop over a paragraph's children builds the concatenation of the inline pieces |
| Markup.ProcessItem | bot.py:148-156 | the `li` branch's loop returns the item's head line followed by the nested lists rendered one level deeper |
| Markup.ProcessList | bot.py:157-162 | the `ul`/`ol` loop returns the items' renderings, plus one `\n` at level 0 only |
| Markup.BlockRendering | bot.py:130-147 | headings and paragraphs always render, end in `\n\n`, and headings are wrapped in `<b>` (h1, h2) or `<i>` (h3) |
| Markup.PlainItemRendering | bot.py:155-156 | an item without a nested list renders as `"  "*level + "• " + text + "\n"` |
| Markup.NestedItemRendering | bot.py:150-154 | an item with a nested list renders as its head line directly followed, with no blank line, by bullet lines of level `n+1` |
| Markup.ItemRendering | bot.py:148-156 | a rendered list item is a bullet block at its level, in both of its forms |
| Markup.ListRendering | bot.py:157-162 | a rendered list is a bullet block at its level, and only a level-0 list adds a trailing `\n` |
| Markup.SublistsFailureSticks | bot.py:152-154 | once a nested list fails with AttributeError, the item fails |
| Markup.ItemsFailureSticks | bot.py:158-160 | once a list item fails with AttributeError, the list fails |
| Normalise.CollapseBlankLines | bot.py:193-202 | the collapse loop returns the collapse specification; its result has no two consecutive empty lines, only `""` as blank lines, and every non-blank input line right-trimmed, in order |
| Normalise.Collapse | bot.py:194-202 | a line is kept when it is non-blank or follows a non-blank line (or starts the text); kept lines become `""` when blank and right-trimmed otherwise |
| Normalise.CollapseRun | bot.py:196-202 | a run of blank lines between text lines, or at either end, becomes exactly one empty line, and the lines on each side collapse on their own |
| Normalise.CollapseBlanks | bot.py:199-201 | blank lines after a text line, or at the start, leave exactly one `""` |
| Normalise.CollapseAppend | bot.py:196-198 | the collapse of lines that start with a text line does not depend on what precedes them |
| Normalise.Normalised | bot.py:193-204 | the content text is the collapsed lines joined by `\n` and stripped |
| Normalise.ReadContent | bot.py:184-209 | no content root gives the sentinel; an AttributeError gives the error message; otherwise the normalised text, or the sentinel when it is empty |
| Normalise.RenderBlocks | bot.py:188-190 | the direct `h1`, `h2`, `h3`, `p`, `ul` and `ol` children of the content root rendered at level 0 and concatenated in order; the first AttributeError ends it |
| Normalise.CollapseLast | bot.py:196-202 | the collapse is empty only for no lines, and its last line is empty exactly when the last input line is blank |
| Normalise.CollapseNoBlankRun | bot.py:199-202 | no two consecutive lines of the collapse are empty |
| Normalise.CollapseTextLines | bot.py:196-199 | the non-blank lines survive, right-trimmed and in their original order |
| Normalise.JoinNoTripleBreak | bot.py:204 | joining lines without two consecutive empty ones gives text with no three consecutive `\n` |
| Normalise.NormalisedShape | bot.py:193-204 | the normalised text is trimmed and has no three consecutive `\n` |
| Normalise.NormalisedEmptyIffBlank | bot.py:193-206 | the normalised text is empty exactly when the rendering was whitespace only |
| Normalise.NotFoundShape | bot.py:206 | the sentinel is non-empty, trimmed and free of blank runs |
| Normalise.ReadFailedShape | bot.py:207-209 | the AttributeError message is non-empty, trimmed and free of blank runs |
| Normalise.ReadContentShape | bot.py:184-209 | the returned text is never empty, always trimmed, has no blank-line runs, and is the sentinel when the rendering is whitespace only |
| Normalise.ReadHtmlFile | bot.py:184-209 | the rendering loop, collapse, join and strip return the specified content, sentinel or error message |
| Normalise.BlocksFailureSticks | bot.py:189-190 | once one block fails with AttributeError, the whole file reads as the error message |
| Paginate.PartsConcat | bot.py:276 | concatenating the slices in order gives back the text exactly |
| Paginate.Parts | bot.py:276 | slice `j` is `text[j*size : j*size+size]`, for `j` below `ceil(len(text)/size)` |
| Paginate.Paginate | bot.py:386 | the bot paginates with slices of 4096 characters |
| Paginate.Deliveries | bot.py:277-289 | part 0 edits the menu message, later parts are replies, and only part `len(parts)-1` has the keyboard |
| Paginate.PartsPrefix | bot.py:386 | the first `k` slices joined are the text up to position `4096k` |
| Paginate.PartsBounded | bot.py:276 | every slice holds between 1 and 4096 characters |
| Paginate.PartsFull | bot.py:276 | every slice but the last holds exactly 4096 characters |
| Paginate.PartsCount | bot.py:386 | there are `ceil(len/4096)` slices, none for the empty text |
| Paginate.ShortTextOnePart | bot.py:276 | a non-empty text that fits in one message is one slice, itself |
| Paginate.DeliveriesOfStory | bot.py:277-289 | the messages sent spell out the story, and exactly one of them, the last, carries the rating keyboard (none for an empty story) |
| Callback.DigitChar | bot.py:60-64 | the score is written as one ASCII digit whose value is the score |
| Callback.EncodeRate | bot.py:60-64 | a rating button's data starts with `rate_`, so the handler routes it to the rating branch |
| Callback.RatingButtonsData | bot.py:58-64 | the five rating buttons carry `rate_<id>_1` to `rate_<id>_5`, in that order |
| Callback.ParseRate | bot.py:299-320 | fewer than three pieces, a non-integer last piece and a score outside 1..5 are rejected in that order; otherwise the id is the middle pieces rejoined with `_` |
| Callback.ParseEncode | bot.py:299-320 | parsing `rate_<id>_<k>` gives back the id and the score, even when the id holds underscores |
| Callback.RatingButtonsDecode | bot.py:58-64 | each of the five rating buttons decodes to its own story and score 1 to 5 |
| Callback.TooFewPartsIff | bot.py:299-303 | the data is rejected for too few parts exactly when no `_` follows the `rate_` prefix |
| Callback.ParseSound | bot.py:305-320 | anything accepted has a score from 1 to 5 and is `rate_<id>_<last piece>`, the last piece holding no `_` and reading as the score |
| Keyboard.CreateKeyboard | bot.py:99-123 | the rows hold every button once, in order; each row has one button or two short ones; a row is left with one short button only before a wide button or at the end |
| Keyboard.Buttons | bot.py:104-113 | one button per story, in the order given, labelled with the title and carrying the story's callback data |
| Keyboard.FirstRow | bot.py:107-117 | the first row holds two buttons exactly when the first two buttons exist and are both short |
| Keyboard.PackingUnique | bot.py:104-120 | only one arrangement of the buttons has the promised shape, so the layout is determined by the labels |
| Ratings.RemoveFirst | bot.py:339-340 | `votes.remove(old)` drops the first occurrence of `old` and keeps the rest in order: one element fewer, multiset less one `old` |
| Ratings.SumRemoveFirst | bot.py:339-342 | removing a score lowers the sum by that score |
| Ratings.SumBounds | bot.py:42 | scores from 1 to 5 sum to between one and five times their number |
| Ratings.ValuesUpdate | bot.py:343 | setting a user's score swaps their old score for the new one in the multiset of user scores |
| Ratings.VoteRepeat | bot.py:334-345 | a vote is refused as a repeat exactly when the user already has that score; only a counted vote changes the store |
| Ratings.Vote | bot.py:323-343 | the record is created or given `user_votes`; a repeat of the same score is refused; a missing `votes` list fails; otherwise the old score is removed once and the new one appended and recorded |
| Ratings.Prepared | bot.py:324-330 | an unseen story gets a fresh record with empty `votes` and `user_votes`; a record without `user_votes` gets an empty one; the user map is then always present |
| Ratings.Revised | bot.py:333-340 | the votes with the user's previous score removed once, when the user has one and it is among the votes; otherwise the votes unchanged |
| Ratings.Cast | bot.py:339-343 | the record after the vote: the revised votes with the new score appended, and the user's entry set to the new score |
| Ratings.VoteFails | bot.py:322-356 | the vote fails exactly when the story's record has no `votes` list and the vote is not a repeat |
| Ratings.VoteCounted | bot.py:323-343 | after a counted vote the user has the new score, other users and other stories are untouched, and the record has both keys |
| Ratings.CastFresh | bot.py:341-342 | a user's first vote appends the score: one more vote |
| Ratings.CastRevote | bot.py:333-342 | a changed vote removes one occurrence of the old score and appends the new one: as many votes as before |
| Ratings.CastConsistent | bot.py:333-342 | recording a score keeps the multiset of votes equal to the multiset of users' scores |
| Ratings.VoteConsistent | bot.py:323-343 | the vote update keeps every record of a consistent store consistent |
| Ratings.VoteInRange | bot.py:315-342 | a score from 1 to 5 keeps every stored score from 1 to 5 |
| Ratings.AggregateEmpty | bot.py:36-43 | the aggregate is `(0, 0)` exactly when there is no record, no `votes` key or no votes |
| Ratings.Aggregate | bot.py:36-43 | the sum and number of the story's votes, or `(0, 0)` without record, `votes` key or votes |
| Ratings.AggregateVoters | bot.py:36-43 | for a consistent record the vote count is the number of users who voted |
| Ratings.AggregateBounds | bot.py:36-43 | with scores from 1 to 5 the average `sum / count` lies between 1 and 5 |
| Ratings.VoteAggregate | bot.py:347-348 | a first vote adds one to the count and the score to the sum; a changed vote keeps the count and moves the sum by the difference |
| Ratings.RateRejectsFirst | bot.py:299-320 | malformed rating data is answered without touching the store; accepted data acts as the vote it encodes |
| Ratings.Rate | bot.py:293-356 | parse the callback data and answer a rejection without touching the store; otherwise vote, answering a repeat as already rated, a missing `votes` list as the caught error, and a counted vote with the new aggregate |
| Ratings.RateButton | bot.py:299-343 | pressing a rating button records that button's score for that story |
| Ratings.RatingStore.constructor | bot.py:24-29 | without a ratings file the store is empty |
| Ratings.RatingStore.CastVote | bot.py:322-343 | the in-place update of the loaded store leaves the outcome and the saved store that `Vote` specifies |
| Ratings.RatingStore.HandleRate | bot.py:293-356 | the rating branch of the button handler replies and updates the store as `Rate` specifies |

## Left out

- Telegram transport: the async handlers `start` and `button`, `show_main_menu`, `show_stories_menu`, `edit_message_text`, `reply_text` and `query.answer` are I/O. The model stops at the replies and the store they produce.
- The trigger for pagination is a `BadRequest` from the transport that either says "Message too long" or comes with a text longer than 4096 characters (bot.py:274, bot.py:384). The error comes from Telegram, so the trigger is not modelled. The model paginates any text it is given.
- File I/O: `load_ratings`/`save_ratings` and the JSON file are the store field itself. Persistence, atomicity and unreadable files are not modelled.
- `os.path.exists`, the file-not-found reply of `read_html_file`, and the directory scan and title extraction of `get_html_files` are file-system work. `create_keyboard` takes the `(callback data, label)` pairs directly.
- BeautifulSoup parsing and `soup.find(...)` of the content root by class are left out. `ReadHtmlFile` takes the located root, or its absence, as input.
- Exceptions other than the `AttributeError` at bot.py:151 and the `KeyError` on a missing `votes` list are not modelled. This covers read errors, decoding and Telegram errors in the catch-all handlers.
- `random.choice` in the random-story handler is nondeterministic, and logging has no effect on the result.
- The rating keyboard's average label is floating-point presentation: `:.1f`, `round(avg_rating)` and the emoji choice. The dummy and main-menu buttons beside it are left out too.
- Ratings.Aggregate: returns the integer `(sum, count)` instead of the float average `sum / count`, because floating point is not modelled.
- PyText.ParseInt: its own contract says only that accepted text holds a digit; `ParseIntOf` and `ParseIntSound` state exactly which texts it accepts and with what value. It accepts ASCII digits with an optional sign and surrounding whitespace only. It leaves out Unicode digits and `_` digit grouping; `_` cannot occur in a piece of a `_` split anyway.
- A record's other JSON keys are not modelled. Neither are values of `votes`/`user_votes` that are not lists of integers and maps to integers.
- HTML comments, CDATA and other `NavigableString` subclasses are not modelled: `Node` has plain text and elements only. In BeautifulSoup a comment is a `NavigableString`, so the paragraph loop at bot.py:143 would emit its stripped text and `find(text=True, recursive=False)` at bot.py:151 could pick it, while `get_text` skips it; the model has no node for which those paths differ from plain text.
- Empty text nodes: `Node` allows `Text("")`, which BeautifulSoup's `html.parser` never produces and its `find` would skip. For such a node `FirstDirectText` would return `""` where `find(text=True, recursive=False)` at bot.py:151 moves on to the next text child; the model assumes text nodes are non-empty, as parsed documents have them.
- `InlineKeyboardMarkup` wrapping of the rows is left out. The model returns the rows of buttons.
