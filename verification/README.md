# telegram-report-bot, modelled in Dafny

The bot runs a `/new_report` questionnaire in a Telegram chat with eight
questions, asked in this order:

1. the project title;
2. the period;
3. the published post links;
4. the planned reach;
5. the actual reach;
6. the mediaplan link;
7. the screenshots folder;
8. the organic links.

Each answer goes into the chat's FSM draft. After the last answer the
bot renders one HTML report and sends it in pieces of at most 3500
characters. The model covers:

- the state machine of `bot/handlers/report_wizard.py`: the `/cancel` and
  `/new_report` commands and the eight step handlers;
- its helpers `_split_lines` and `_parse_int`;
- the report assembly in `_finish_and_send`;
- the formatting in `bot/utils/formatting.py`: `chunk_text`,
  `format_report_html` and its `fmt_int`;
- the administrator allow-list parser `_parse_admins` of `bot/config.py`.

Modules, one per file:

- `Wrappers` (`wrappers.dfy`): `Option`, for Python's `None`.
- `Text` (`text.dfy`): the Python string operations the code relies on,
  with their Python meaning. These are `str.isspace`, `strip()`,
  `split(sep)`, `sep.join`, `splitlines()` and `replace(c, "")`.
- `Ints` (`ints.dfy`): `int(s)` on decimal literals, with sign and
  underscores, and `str(n)`.
- `Config` (`config.dfy`): `_parse_admins`.
- `Formatting` (`formatting.dfy`): `chunk_text`, `fmt_int` and
  `format_report_html`. The report is modelled as a sequence of typed lines,
  then rendered and joined with `"\n"`.
- `ReportWizard` (`report_wizard.dfy`): `_split_lines` and `_parse_int`, and
  the questionnaire as a pure transition function `Step` over a `Session`
  (the FSM state plus the draft map). It also covers runs of events and
  `_finish_and_send`.

Modelling choices:

- A message's text is `Option<string>`, because stickers and photos have
  no `msg.text`.
- An exception a handler raises is an explicit reply. `HandlerFailed` is
  `msg.text.strip()` on a missing text. `NotANumber` is the `except` branch
  of the number steps.
- `int()`'s `ValueError` is `None`.
- The resolver `enrich_links_with_resolver` is a function parameter.
- The text of the rounded growth float is a function parameter.

Behaviours of the code worth knowing:

- `chunk_text` is called with 3500 (report_wizard.py:188).
  `MAX_MESSAGE_LEN = 4096` (config.py:24) is not used.
- `_parse_int` reads a blank or missing answer as 0 (report_wizard.py:46,50).
- Apart from that, `_parse_int` ignores every character other than a decimal
  digit (`\d`, which in Python also matches non-ASCII decimal digits) or `-`,
  and keeps every `-` (report_wizard.py:50). The model reads ASCII digits
  only; "## Left out" gives the difference. So `"1 234"` and
  `"1,234"` read as 1234 and `"-5"` reads as -5. `"12-3"`, `"-"` and `"abc"`
  make the bot ask again, because `int()` raises on what remains.
- The removal of thousands separators at report_wizard.py:49 never changes
  the result, since line 50 drops those characters anyway
  (`KeepDigitsMinusOfDropGroupSeparators`).
- The report's organic reach is always 0, and its total is the actual reach
  (report_wizard.py:179-180).
- The growth is `round(..., 2)` of a float and is printed as Python prints
  floats (report_wizard.py:167, formatting.py:61). So a growth of 20 prints
  as `20.0`, and `0.0` when nothing was planned.
- The screenshots answer is a folder URL stored as text, or `None` for the
  words `-`, `—`, `нет` and `Нет` (report_wizard.py:133).
- An exception from `enrich_links_with_resolver` is not caught
  (report_wizard.py:170).

## Model

| member | source | states |
|---|---|---|
| Text.StripMiddle | bot/handlers/report_wizard.py:43 | `strip()` returns the middle slice of its input between an all-whitespace prefix and an all-whitespace suffix, and the input is those three pieces put back together |
| Text.Strip | bot/handlers/report_wizard.py:46 | the result of `strip()` has no whitespace at either end and is empty exactly when the input is all whitespace |
| Text.StripSurrounded | bot/config.py:12 | whitespace added around an already-stripped string is exactly what `strip()` removes again |
| Text.StripIdempotent | bot/handlers/report_wizard.py:43 | stripping an already-stripped string changes nothing |
| Text.JoinSplit | bot/utils/formatting.py:7 | `sep.join(s.split(sep)) == s`: splitting loses nothing but the separators |
| Text.SplitCharConcat | bot/config.py:11 | splitting on a one-character separator distributes over a string glued with that separator |
| Text.StrippedNonBlankAppend | bot/handlers/report_wizard.py:43 | the strip-and-drop-blank comprehension keeps order and judges each entry on its own, so it distributes over concatenation |
| Text.StrippedNonBlankFixpoint | bot/utils/formatting.py:53-58 | entries that are already stripped and non-blank pass through the strip-and-skip-blank filter unchanged |
| Ints.ParseIntToString | bot/handlers/report_wizard.py:50 | `int(str(n)) == n` for every integer |
| Ints.ParseDigitsAndMinus | bot/handlers/report_wizard.py:50 | on strings of digits and minus signs, `int()` accepts exactly a non-empty digit string and a minus sign followed by one, with the value they denote; anything else raises |
| Ints.Decimal | bot/utils/formatting.py:45 | the decimal spelling of `n >= 0` is non-empty, all digits, denotes `n`, and has no leading zero unless it is `"0"` |
| Config.ParseAdmins | bot/config.py:9-19 | an id is in the allow-list exactly when some comma-separated part, once stripped, reads as that id under `int()`; parts that raise are skipped and nothing else raises |
| Config.ParseAdminsJoin | bot/config.py:11-18 | two settings joined with a comma give the union of their allow-lists |
| Config.ParseAdminsOrderIrrelevant | bot/config.py:10-19 | the allow-list does not depend on the order of the parts, because it is a set |
| Config.ParseAdminsDuplicate | bot/config.py:10-19 | repeating the setting adds no id |
| Config.ParseAdminsBlank | bot/config.py:13-14 | an empty or whitespace-only setting gives an empty allow-list |
| Config.ParseAdminsSinglePart | bot/config.py:11-18 | a setting without commas is one part: its id if `int()` reads it, nothing otherwise |
| Config.PartIdTrims | bot/config.py:12 | whitespace around a part does not change the id it reads as |
| Config.ParseAdminsDropsInvalid | bot/config.py:15-18 | a part that `int()` rejects is dropped without affecting the other ids |
| Formatting.ChunkText | bot/utils/formatting.py:3-28 | a text within the limit comes back as one piece, and every piece is within the limit. A longer text gives non-empty pieces that spell its `"\n\n"` paragraphs in order, with only separators lost. Packing is greedy: a separator is lost only where one piece ends and the next begins, and only when the paragraph behind it does not fit behind that piece (piece length + 2 + paragraph length over the limit). A piece starts only at such a lost separator or strictly inside a paragraph longer than the limit. There are no pieces exactly when the text is over the limit and every paragraph is empty |
| Formatting.PackParagraphs | bot/utils/formatting.py:7-28 | the loop with its final flush gives non-empty pieces within the limit. They spell the paragraphs with only separators lost. A separator is lost only at a piece boundary where the paragraph behind it does not fit behind the piece in front, so no piece could have taken the next paragraph. Each piece starts at such a lost separator or inside a paragraph longer than the limit. There are none exactly when every paragraph is empty |
| Formatting.PackParagraph | bot/utils/formatting.py:11-25 | one loop iteration only appends text, and the separator in front of the paragraph is kept exactly when the paragraph fits behind a non-empty buffer. A lost separator lies at a piece boundary, behind a piece the paragraph does not fit after. A paragraph within the limit emits at most the old buffer. Every new piece starts at the paragraph, after a lost separator, or strictly inside a paragraph longer than the limit. Earlier pieces are unchanged and the buffer stays within the limit. An empty buffer after a piece means that piece has no room left for a separator |
| Formatting.Overflow | bot/utils/formatting.py:14-25 | when the paragraph does not fit behind the buffer, a non-empty buffer is emitted and the paragraph starts the next buffer (sliced first if it is too long). Text is only appended. The lost separator lies where the emitted buffer (or the last piece) ends, and the paragraph does not fit behind it. Every new piece and the new buffer start at the paragraph or strictly inside a too-long one |
| Formatting.StartParagraph | bot/utils/formatting.py:17-25 | a paragraph within the limit becomes the buffer unchanged and emits nothing; a longer one is sliced. The text is kept, the buffer is empty exactly when the paragraph is, and every new piece and the buffer start at the paragraph or strictly inside it |
| Formatting.StartLong | bot/utils/formatting.py:19-25 | a too-long paragraph becomes full slices plus a buffer of 1 to `max_len` characters, which spell it after the earlier pieces. Every new piece and the buffer start at the paragraph or strictly inside it |
| Formatting.SliceLong | bot/utils/formatting.py:20-25 | an over-long paragraph is cut into slices of exactly `max_len` characters and a non-empty remainder within the limit, which together spell the paragraph. Every run of slices from the start is a non-empty proper prefix of the paragraph |
| Formatting.ShortParagraphUncut | bot/utils/formatting.py:4 | no piece starts strictly inside a paragraph of at most `max_len` characters, so such a paragraph always lies whole inside one piece |
| Formatting.LostSeparatorOverflows | bot/utils/formatting.py:11-15 | when a piece ends exactly where the separator in front of a paragraph was lost, the piece length + 2 + the paragraph length is over the limit: the loop moves on to a new piece only when the paragraph does not fit |
| Formatting.OnePiecePerParagraphRejected | bot/utils/formatting.py:11-13 | `"aaa\n\nbbb\n\nccc"` with a limit of 8 cannot be split into one piece per paragraph, because `"bbb"` fits behind `"aaa"` (3 + 2 + 3 = 8) |
| Formatting.FmtIntRemoveSpaces | bot/utils/formatting.py:44-45 | removing the spaces from `fmt_int(n)` gives `str(n)` |
| Formatting.FmtIntShape | bot/utils/formatting.py:44-45 | `fmt_int(n)` starts with a minus sign exactly for negative `n`; the rest starts with a digit, is made of digits and spaces, and has a space exactly at every fourth position from the right |
| Formatting.ReportLinesSections | bot/utils/formatting.py:47-73 | the period line is present exactly when the period is non-empty; a screenshots line appears only for a truthy folder URL and always for one; the planned, actual, mediaplan, organic-reach and disclaimer lines are always present; the organic header is present exactly when there are organic links |
| Formatting.ReportLinesBullets | bot/utils/formatting.py:53-69 | the post bullets are the post links stripped, blank ones skipped, in order; the organic bullets are the organic links verbatim, in order |
| Formatting.ReportHtmlEnds | bot/utils/formatting.py:47-75 | the report starts with the bold title on its own line and ends with the bold total on its own line |
| ReportWizard.SplitLinesClean | bot/handlers/report_wizard.py:42-43 | every line `_split_lines` returns is non-empty, has no whitespace at either end and no line break inside |
| ReportWizard.SplitLinesConcat | bot/handlers/report_wizard.py:42-43 | text joined at a line break gives the lines of each side, in order |
| ReportWizard.SplitLinesSingle | bot/handlers/report_wizard.py:42-43 | a text without line breaks gives its stripped self, or nothing when it is blank |
| ReportWizard.SplitLinesJoin | bot/handlers/report_wizard.py:42-43 | clean lines joined with `"\n"` split back into exactly themselves |
| ReportWizard.SplitLinesIdempotent | bot/handlers/report_wizard.py:42-43 | re-joining the lines and splitting again gives the same lines |
| ReportWizard.ParseWizardIntReads | bot/handlers/report_wizard.py:45-50 | `_parse_int` reads a blank or missing text as 0; otherwise it is `int()` of the text's digits and minus signs, with every other character dropped |
| ReportWizard.ParseWizardIntCases | bot/handlers/report_wizard.py:45-50 | `_parse_int` reads a blank or missing text as 0. Otherwise it succeeds exactly when the text's digits and minus signs are a digit string, or a minus sign followed by one, and then reads their value |
| ReportWizard.ParseWizardIntIgnoresNoise | bot/handlers/report_wizard.py:47-50 | inserting any character other than a digit or minus sign into a non-blank number text does not change what it reads as ("1 233 500", "1,233,500" and "1.233.500" are all 1233500) |
| ReportWizard.ParseWizardIntFmtInt | bot/handlers/report_wizard.py:45-50 | `_parse_int(fmt_int(n)) == n`: the wizard reads back the numbers the report prints |
| ReportWizard.KeepDigitsMinusOfDropGroupSeparators | bot/handlers/report_wizard.py:49-50 | removing thousands separators never changes which digits and minus signs the final filter keeps |
| ReportWizard.Answer | bot/handlers/report_wizard.py:74-144 | a title, period, mediaplan or screenshots answer without text fails and leaves the session unchanged. A planned or actual answer that does not read as a number re-asks and leaves the session unchanged. Any other answer before the last stores its value under its own question, leaves the other entries alone and asks the next question. Titles and periods are stored stripped. Mediaplan and screenshots are stored stripped, or `None` for the "none" words. Numbers are stored as `_parse_int` reads them, and post links as sent. The organic-links answer produces the report of the draft with it added, and clears the chat |
| ReportWizard.Step | bot/handlers/report_wizard.py:56-68 | `/new_report` restarts at the title with an empty draft from any state; `/cancel` clears everything; a message with no pending question is left unhandled; the `done` state is never entered |
| ReportWizard.AnswerStores | bot/handlers/report_wizard.py:74-139 | an accepted answer before the last changes the draft only at its own question, to the value the handler stores |
| ReportWizard.StepPreservesConsistent | bot/handlers/report_wizard.py:26-35 | from a consistent session every event leads to a consistent one. A session is consistent when it is idle with an empty draft, or when it asks a question with exactly the earlier questions answered, each with a value of its type |
| ReportWizard.RunPreservesConsistent | bot/handlers/report_wizard.py:26-35 | no sequence of events from a consistent session reaches an inconsistent one or the `done` state |
| ReportWizard.RunAppend | bot/handlers/report_wizard.py:56-144 | running two event sequences one after the other is the same as running their concatenation |
| ReportWizard.CancelThenRestart | bot/handlers/report_wizard.py:56-68 | after any events, `/cancel` leaves the chat idle, and a following `/new_report` asks for the title with an empty draft |
| ReportWizard.RunAnswers | bot/handlers/report_wizard.py:74-144 | accepted answers from question `k` on ask every later question in order, then produce the report of the filled-in draft and leave the chat idle |
| ReportWizard.FullDialogue | bot/handlers/report_wizard.py:61-144 | from any session, `/new_report` followed by eight accepted answers gives the eight prompts in order, then the report of the draft, and leaves the chat idle |
| ReportWizard.DraftHeading | bot/handlers/report_wizard.py:153-154 | in a complete dialogue the report's title and period are the stripped answers |
| ReportWizard.DraftNumber | bot/handlers/report_wizard.py:159-160 | in a complete dialogue the report's planned and actual reach are the answers as `_parse_int` reads them |
| ReportWizard.DraftOptional | bot/handlers/report_wizard.py:161-162 | in a complete dialogue the report's mediaplan and screenshots are the stripped answers, absent for the "none" words |
| ReportWizard.DraftLinks | bot/handlers/report_wizard.py:156-157 | in a complete dialogue the report's two link texts are the answers as sent |
| ReportWizard.SendReport | bot/handlers/report_wizard.py:150-191 | at least one message is sent, and every message is non-empty and at most 3500 characters. A report within the limit is sent whole. The messages spell the report with at most paragraph separators lost. A separator is lost only between two messages, when the paragraph behind it does not fit into the message before. A message starts only at such a lost separator or inside a paragraph longer than 3500 characters |
| ReportWizard.ReportShowsData | bot/handlers/report_wizard.py:153-185 | the report lists the enriched post lines (non-blank ones) and the organic lines. It shows the planned reach, and the actual reach with the growth: `0.0` when nothing was planned, the rendered percentage otherwise. It shows the mediaplan or `""`. The period line appears exactly when there is a period, and a screenshots line only for the answered folder. The organic reach is 0 and the last line is the actual reach as the total |
| ReportWizard.ReportListsPostsAsEntered | bot/handlers/report_wizard.py:156-176 | without enrichment the report lists the post lines exactly as `_split_lines` read them |

## Left out

- Telegram I/O is not modelled: receiving messages, `msg.answer`, `parse_mode` and link previews. `SendReport` returns the messages it would send, and `Step` returns a reply value instead of the prompt texts.
- Routing between the two routers is not modelled. `app.py` includes `bot/handlers/start.py`'s router first (app.py:17-18), and that router has its own `/cancel` handler (start.py:19-21), which only replies. `/cancel` is modelled as report_wizard.py's handler. Whether that handler is reached in the running bot depends on aiogram's dispatch order, which is not part of this model. `/start` and its allow-list gate in start.py are not modelled either.
- Environment loading (`load_dotenv`, `BOT_TOKEN`, `ADMIN_IDS_RAW`) and the unused constants `MAX_MESSAGE_LEN` and `MAX_ALBUM_PHOTOS` are not modelled. `ParseAdmins` takes the raw setting as its argument.
- FSM storage is a pure `Session` value per chat. Several chats, concurrent updates and the storage backend are not modelled.
- ReportWizard.ParseWizardIntCases (and ParseWizardIntReads, ParseWizardIntIgnoresNoise, ParseWizardIntFmtInt, which share `ParseWizardInt` and `Ints.ParseLiteral`): digits are ASCII only. Python's `\d` and `int()` also accept other Unicode decimal digits, so `_parse_int("٣")` is 3 in Python but `None` (re-ask) here.
- ReportWizard.ParseWizardIntCases (and the other `ParseWizardInt` lemmas): does not model the `ValueError` that `int()` raises on more than 4300 digits (Python 3.11 and later). That limit depends on the interpreter version and its settings. Such a number re-asks in Python but is accepted here.
- Config.ParseAdmins: reads ASCII digits only, as `ParseWizardInt` does, so a part in other Unicode digits is dropped here but read by Python. It also does not model `int()`'s 4300-digit limit.
- Config.PartId: same restriction on digits and on the digit limit as `Config.ParseAdmins`.
- ReportWizard.IsWordChar: approximates Python's Unicode `\w`, used by `\b` in the thousands-separator pattern, with ASCII letters, digits, `_`, Latin-1 letters and Cyrillic. A different choice can only change which separators are removed. `KeepDigitsMinusOfDropGroupSeparators` shows that this never changes the digits and minus signs the final filter keeps, so `_parse_int`'s result does not depend on it.
- ReportWizard.SendReport (and ReportWizard.Answer, ReportWizard.RunAnswers, ReportWizard.FullDialogue for the last answer): model `enrich_links_with_resolver` and `msg.answer` as calls that always succeed. In the source, an exception from the resolver (report_wizard.py:170) or from `msg.answer` (:189) propagates before `state.clear()` (:191). The chat then stays at the organic-links question with its draft. In the model the last answer always returns the chat to idle.
- ReportWizard.ReportFieldsOf: the growth percentage `round((actual - planned) / planned * 100, 2)` (report_wizard.py:167) and its rendering in the f-string (formatting.py:61) are floating point. They are modelled as an opaque text parameter `pctText(planned, actual)`. Only the `planned == 0` case is fixed: it prints `0.0`.
- Formatting.ChunkText: requires `maxLen >= 1`. For `max_len <= 0` and any paragraph of at least one character, `chunk_text`'s slicing loop (formatting.py:22-25) never ends, because `s[max_len:]` does not shorten `s`. The only caller passes 3500.
- Text.IsLineBreak: models `\r\n` as two line breaks. This can only add empty pieces, and `_split_lines` drops those, so `SplitLines` matches `_split_lines` exactly.
