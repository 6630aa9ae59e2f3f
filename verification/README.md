# persian_writer — a Dafny model of the writing tools' core

persian_writer helps authors plan and write long Persian books. This
project models the pure part of it in Dafny and proves properties of that
model:

- **The text analyser** (`analysis.py`). It computes paragraph, sentence
  and word counts of a draft, exact averages, long sentences, runs of
  repeated whitespace and four typography alerts. It then renders them as
  a Markdown report.
- **The outline builder** (`outline.py`). It produces numbered chapter
  placeholders that share one word target, and renders them as Markdown.
- **The chapter logic of a book project** (`book.py`). This covers the
  title slug used in file names, appending a chapter with the file name
  `NN-slug.md`, and the Markdown skeleton of a new chapter.

## Modules

| file | module | contents |
|---|---|---|
| `seqs.dfy` | `Seqs` | Filter, concatenation and join, substring search, subsequences |
| `text.dfy` | `Text` | character classes and the Python string operations the core uses |
| `decimal.dfy` | `Decimal` | `str(n)`, `{n:02d}` and the digit parser that reads them back |
| `analysis.dfy` | `Analysis` | `TextMetrics`, `analyze_text`, `format_metrics` |
| `outline.dfy` | `Outline` | `OutlineItem`, `build_outline`, `format_outline` |
| `book.dfy` | `Book` | `Chapter`, `BookProject`, `_slugify`, `add_chapter` without the file writes, `_chapter_template` |

### Unicode

Python's Unicode classes are not spelled out. They are a value
`Text.CharClasses(word, space, lower)` that every operation takes as a
parameter:

- `word` is the regex `\w`.
- `space` is `\s`, which is also what `str.strip()` and `str.split()` use.
- `lower` is a one-character `str.lower`.

The ghost predicate `Text.WellFormed` fixes their ASCII behaviour to
Python's. On ASCII, `space` holds exactly for tab, the line breaks,
`\x0b`, `\x0c`, `\x1c` to `\x1f` and space. It also requires that
lowercasing never turns a visible character into whitespace, and that
lowercasing twice gives the same result as lowercasing once. The lemmas
that depend on these facts require `WellFormed`; the operations
themselves work for any classes.

### Sentence terminators

The terminator class `[\.؟!！!]` is `.`, the Arabic question mark
U+061F, `!` and the full-width exclamation mark U+FF01. ASCII `?` is not
in it, so `Analysis.IsTerminator('?')` is false.

### Chapter template summary line

The template uses the placeholder summary line when the summary is
empty. It also produces that exact line when the summary is the
placeholder text itself. `Book.TemplateSummaryLine` therefore states the
iff with both cases.

## Model

| member | source | states |
|---|---|---|
| Text.Strip | src/persian_writer/analysis.py:26 | `str.strip()` keeps one contiguous slice of the input, and only whitespace lies on either side of it. The result has no whitespace at either end. It is empty exactly when the input is all whitespace. |
| Text.StripMembers | src/persian_writer/analysis.py:28 | Stripping only removes characters; every character of the result occurs in the input |
| Text.StripTrimmed | src/persian_writer/book.py:136 | Stripping a string with no whitespace at either end returns it unchanged |
| Text.SplitOn | src/persian_writer/analysis.py:26 | `text.split("\n\n")` yields at least one piece. Joining the pieces with the separator gives the text back. No piece contains the separator. |
| Text.SplitOnLeftmost | src/persian_writer/analysis.py:26 | The first cut is at the leftmost occurrence of the separator: none starts inside the first piece, and one starts right after it when there is a second piece |
| Text.SplitOnRest | src/persian_writer/analysis.py:26 | When there is a second piece, the pieces after the first are exactly the split of the text after the first separator, so with `Text.SplitOnLeftmost` every cut is fixed |
| Text.SplitBy | src/persian_writer/analysis.py:27 | `re.split` on the terminator class gives one more piece than there are terminators. No piece contains a terminator. Putting the terminators back between the pieces gives the text. |
| Text.Runs | src/persian_writer/analysis.py:29 | The runs of a class that `findall`, `split()` and `finditer` see: each is a maximal run, left to right with gaps between them |
| Text.RunsFrom | src/persian_writer/analysis.py:29 | Each span the scan reports is a maximal run of the class, and the spans appear left to right with gaps between them |
| Text.RunsExact | src/persian_writer/analysis.py:29 | The run scanner finds exactly the maximal runs of the class: every maximal run is reported, and nothing else is |
| Text.RunsEmpty | src/persian_writer/analysis.py:29 | There are no runs exactly when no character is in the class |
| Text.Bullets | src/persian_writer/analysis.py:72-73 | One line per item, in order. Each line is `- `, the item and a line break, so the item reads back from its line. |
| Text.BulletsInjective | src/persian_writer/book.py:108-109 | Different item lists give different lines |
| Seqs.Filter | src/persian_writer/analysis.py:34 | A list comprehension with a condition keeps exactly the elements that satisfy it, and never more elements than it started with |
| Seqs.FilterMultiplicity | src/persian_writer/analysis.py:34 | Every copy of a kept value stays, and no copy of a dropped value does |
| Seqs.Concat | src/persian_writer/analysis.py:83 | `"".join(lines)` is empty exactly when every line is empty |
| Seqs.Contains | src/persian_writer/analysis.py:38 | `p in s`: the empty string is in every string, and nothing longer than `s` is in it |
| Seqs.FilterIsSubsequence | src/persian_writer/analysis.py:34 | A list comprehension with a condition keeps a subsequence of its input, so the order is preserved |
| Seqs.FilterOrdered | src/persian_writer/analysis.py:35 | Filtering keeps any pairwise ordering the input had |
| Seqs.ContainsOccurrence | src/persian_writer/analysis.py:38 | Python's `p in s` holds exactly when `p` occurs at some position of `s` |
| Seqs.SubsequenceNoDuplicates | src/persian_writer/analysis.py:37-45 | A subsequence of a list without repeats has no repeats |
| Analysis.IsTerminator | src/persian_writer/analysis.py:9 | Only `.`, `؟`, `!` and `！` end a sentence: neither ASCII `?` nor the full-width `？` is a terminator |
| Analysis.StripAll | src/persian_writer/analysis.py:26 | The kept pieces are exactly as many as the non-blank pieces. Each kept piece is non-empty and has no whitespace at either end. |
| Analysis.StripAllKeeps | src/persian_writer/analysis.py:28 | The k-th kept piece is the stripped k-th non-blank piece |
| Analysis.Paragraphs | src/persian_writer/analysis.py:26 | There is one paragraph per blank-line-separated piece that is not blank. Every paragraph is non-empty and trimmed. |
| Analysis.Sentences | src/persian_writer/analysis.py:27-28 | There is one sentence per piece between terminators that is not blank, and the k-th sentence is the k-th such piece, stripped. Every sentence is non-empty, trimmed and free of `.`, `؟`, `!`, `！`. There are at most one more sentences than terminators in the text. |
| Analysis.WordCount | src/persian_writer/analysis.py:29 | The word count is 0 exactly when the text has no word character |
| Analysis.TokenCount | src/persian_writer/analysis.py:34 | `len(s.split())` counts the maximal non-whitespace runs and is 0 exactly when `s` is all whitespace |
| Analysis.Average | src/persian_writer/analysis.py:31-32 | The average is 0 when there is nothing to divide by. Otherwise, multiplied by the count, it gives the word count. |
| Analysis.LongSentences | src/persian_writer/analysis.py:34 | A sentence is listed exactly when it has more than 30 tokens, so 30 tokens are excluded and 31 included. A long sentence written twice is listed twice. The listed sentences keep the order they had in the text. |
| Analysis.RepeatedSpaceSpans | src/persian_writer/analysis.py:35 | The `\s{2,}` matches are exactly the maximal whitespace runs of length at least two, in text order |
| Analysis.RepeatedSpaces | src/persian_writer/analysis.py:35 | One entry per match: the whole whitespace run, at least two characters, occurring verbatim in the text at its match position and exactly as long as the match |
| Analysis.RepeatedSpacesEmpty | src/persian_writer/analysis.py:35 | No repeated whitespace is reported exactly when no two neighbouring characters are both whitespace |
| Analysis.AlertsFor | src/persian_writer/analysis.py:37-45 | At most one alert per rule, taken from the rules' messages in rule order. A rule's message is present exactly when its pattern occurs. |
| Analysis.TypographyAlerts | src/persian_writer/analysis.py:37-45 | At most four alerts, no duplicates, in the fixed order comma, semicolon, `! !`, `? ?`. Each alert is present exactly when its pattern occurs, however often it occurs. |
| Analysis.Assemble | src/persian_writer/analysis.py:47-56 | The record carries the counts and lists it is given, with each average consistent with the counts |
| Analysis.Analyze | src/persian_writer/analysis.py:25-56 | The counts are those of the paragraphs and sentences found. Words, long sentences, repeated spaces and alerts are those of `Analysis.WordCount`, `Analysis.LongSentences`, `Analysis.RepeatedSpaces` and `Analysis.TypographyAlerts`. The word count is 0 exactly when there is no word character. There are at most terminators plus one sentences and at most four alerts. Averages agree with the counts. |
| Analysis.AnalyzeEmpty | src/persian_writer/analysis.py:25-56 | An empty draft gives zero counts, zero averages and three empty lists |
| Analysis.ReportLines | src/persian_writer/analysis.py:60-81 | The report lines are the seven summary lines, plus two more than the long sentences when there are any, one warning line when whitespace repeats, and one more than the alerts when there are any |
| Analysis.FormatMetrics | src/persian_writer/analysis.py:59-68 | The report always starts with the metrics heading followed by the five count and average lines |
| Analysis.EmptyDraftReport | src/persian_writer/analysis.py:31-32 | An empty draft has no sentences or paragraphs, so both averages are the int 0. Its report is the heading, three `0` counts and two `0` averages, whatever the float formatting. |
| Analysis.ZeroFloatAverage | src/persian_writer/analysis.py:31 | With at least one sentence the sentence average is a float, so it is printed by the float formatting even when it is zero (a draft such as `-`) |
| Analysis.SummaryHasNoHeading | src/persian_writer/analysis.py:60-68 | No section heading occurs among the summary lines |
| Analysis.LongSectionHeadings | src/persian_writer/analysis.py:70-74 | The long-sentence section contains its heading exactly when there are long sentences, and contains no other heading |
| Analysis.WarningSectionHeadings | src/persian_writer/analysis.py:76-77 | The warning section contains the warning exactly when whitespace was repeated, and contains no other heading |
| Analysis.AlertsSectionHeadings | src/persian_writer/analysis.py:78-81 | The alerts section contains its heading exactly when there are alerts, and contains no other heading |
| Analysis.HeadingsDiffer | src/persian_writer/analysis.py:71-79 | The three section headings are pairwise different and none starts with `-` |
| Analysis.ReportLongSentences | src/persian_writer/analysis.py:70-74 | The long-sentence heading appears in the report exactly when there are long sentences. It then follows the summary and is followed by one `- ` line per sentence, in order. |
| Analysis.LongSentencesPlaced | src/persian_writer/analysis.py:70-74 | With long sentences, line 7 is their heading and the next lines are their items |
| Analysis.ReportRepeatedSpaces | src/persian_writer/analysis.py:76-77 | The repeated-whitespace warning appears exactly when whitespace was repeated |
| Analysis.ReportAlerts | src/persian_writer/analysis.py:78-81 | The alerts heading appears exactly when there are alerts. The report then ends with that heading and one line per alert, in order. |
| Analysis.AlertsPlaced | src/persian_writer/analysis.py:78-81 | With alerts, the heading sits just before the last lines, which are the alerts as bullet items in order |
| Decimal.NatToString | src/persian_writer/analysis.py:62-64 | `str(n)` is a non-empty run of digits without a leading zero, one digit long exactly when `n < 10` |
| Decimal.ParseNatToString | src/persian_writer/analysis.py:62-64 | Reading back the numeral of `n` gives `n` |
| Decimal.NatToStringInjective | src/persian_writer/outline.py:23 | Different numbers have different numerals |
| Decimal.ZeroPad2 | src/persian_writer/book.py:83 | `{n:02d}` is all digits, at least two long (longer only when `n` needs more digits), and reads back as `n` |
| Decimal.LeadingDigits | src/persian_writer/book.py:83 | The longest all-digit prefix of a string |
| Decimal.LeadingDigitsOf | src/persian_writer/book.py:83 | A numeral followed by a non-digit is read back as exactly that numeral |
| Decimal.IntToString | src/persian_writer/outline.py:36 | `str(n)` of an integer is all digits exactly when `n` is not negative, and then reads back as `n`. A negative `n` gives a minus sign (not a digit) followed by digits that read back as `-n`. |
| Decimal.IntToStringInjective | src/persian_writer/outline.py:36 | Different word targets are rendered differently |
| Outline.ChapterTarget | src/persian_writer/outline.py:18 | The target is at least 1500 words, and the divisor is never zero. It is the floor quotient of the book target by `max(sections, 1)` when that exceeds 1500, and otherwise that quotient is at most 1500. |
| Outline.ItemsFrom | src/persian_writer/outline.py:19-28 | The loop yields one item per index from `from` to `count`, in increasing order, and none when `count < from` |
| Outline.BuildOutline | src/persian_writer/outline.py:17-28 | Exactly `max(major_sections, 0)` items. Item i is titled `فصل i`, has the summary for i and the project's audience, and all items share the chapter target. |
| Outline.OutlineTitlesDistinct | src/persian_writer/outline.py:20-23 | No two items have the same title |
| Outline.SummaryNamesAudience | src/persian_writer/outline.py:24 | A summary ends with the project's audience and a full stop, or with `عمومی.` when no audience is set |
| Outline.ItemLines | src/persian_writer/outline.py:34-36 | An item gives three lines. The title, summary and word target each sit behind their label and read back from their line. The last line ends in a blank line. |
| Outline.ItemsLines | src/persian_writer/outline.py:33-36 | Every item contributes exactly three lines |
| Outline.ItemsLinesAt | src/persian_writer/outline.py:33-36 | Items are rendered in order: lines 3i to 3i+2 are item i's title, summary and word-target lines |
| Outline.FormatOutline | src/persian_writer/outline.py:31-37 | The text starts with the outline heading; an empty outline gives only the heading |
| Outline.FormatOutlineAppend | src/persian_writer/outline.py:31-37 | Appending an item to the outline appends exactly its three lines to the text |
| Outline.ItemsLinesAppend | src/persian_writer/outline.py:33-36 | The lines of two item lists are the lines of the first followed by those of the second |
| Book.ReplaceChar | src/persian_writer/book.py:136 | `s.replace(c, "-")` keeps the length and turns exactly the occurrences of `c` into `-` |
| Book.ReplaceEach | src/persian_writer/book.py:137-138 | The replacement loop keeps the length and turns exactly the characters of the loop set into `-` |
| Book.Normalize | src/persian_writer/book.py:136-138 | Before lowercasing, the slug is as long as the stripped title, and each breaking character has become `-` |
| Book.LowerAll | src/persian_writer/book.py:139 | Lowercasing keeps the length and lowercases each character in place |
| Book.Slugify | src/persian_writer/book.py:135-139 | The slug is as long as the stripped title, and each character is the lowercased slug character of the title character at that position |
| Book.SlugHasNoBreaker | src/persian_writer/book.py:136-138 | No space, zero-width non-joiner, tab, `\n`, `\r`, `،`, `؟`, `؛` or `!` remains in a slug |
| Book.SlugCharSafe | src/persian_writer/book.py:136-139 | No single title character becomes a breaking character of the slug |
| Book.SlugBreakersBecomeDashes | src/persian_writer/book.py:136-138 | Each breaking character of the stripped title is `-` at the same position of the slug |
| Book.SlugTrimmed | src/persian_writer/book.py:136-139 | Stripping comes first, so a slug has no whitespace at either end |
| Book.SlugCharVisible | src/persian_writer/book.py:136-139 | A non-whitespace title character stays non-whitespace in the slug |
| Book.SlugIdempotent | src/persian_writer/book.py:135-139 | Slugifying a slug returns it unchanged |
| Book.ChapterFileName | src/persian_writer/book.py:83 | A chapter file name starts with `{index:02d}`, which reads back as the chapter's number. It continues with `-`, the slug and `.md`. |
| Book.FileNamesDiffer | src/persian_writer/book.py:83 | Chapters with different numbers get different file names, whatever their titles |
| Book.AddChapter | src/persian_writer/book.py:80-85 | The chapter list grows by exactly one and the earlier chapters are unchanged. The new chapter is last, with the given title and summary, `goals or []` and status `not-started`. Its file name is the chapter file name for number `len(chapters) + 1` and the title. No other project field changes. |
| Book.AddChapterKeepsNumbered | src/persian_writer/book.py:82-85 | If every chapter's file name carries its position, counting from 1, this still holds after a chapter is added |
| Book.NumberedAppend | src/persian_writer/book.py:82-85 | Appending a chapter whose file name carries the next number keeps the list numbered |
| Book.NumberedFileNamesDistinct | src/persian_writer/book.py:82-85 | In a project whose chapters are numbered in order, no two chapters share a file |
| Book.TemplateLines | src/persian_writer/book.py:96-131 | The template lines are the title line, a blank line, the summary heading, the summary line, the goals heading, one line per goal (or default goal) and the fixed 18-line tail |
| Book.ChapterTemplate | src/persian_writer/book.py:95-132 | The template begins with `# title`, a blank line and the summary heading |
| Book.TemplateShape | src/persian_writer/book.py:96-131 | The template has five head lines, one line per goal (or default goal), then the 18 fixed tail lines |
| Book.TemplateSummaryLine | src/persian_writer/book.py:100 | A non-empty summary is repeated on its line. The placeholder line appears exactly when the summary is empty or is the placeholder text. |
| Book.TemplateGoalLines | src/persian_writer/book.py:103-109 | There is one `- goal` line per goal, in order. The three default goals are used when there are none, and they are what the template shows exactly when the goals are empty or are the defaults. |

## Left out

- `cli.py` is not part of this model. It handles argument parsing, command dispatch, reading files and printing.
- Persistence is not modelled. This covers `BookProject.save`, `load`, `to_dict`, `create_project`, `_write_guidelines`, `_write_chapter_template`, and the `save()` and template-writing calls inside `add_chapter`. All of these are file and JSON I/O.
- `created_at` reads the wall clock when a project is created. `BookProject.createdAt` is an ordinary field supplied by the caller.
- `style_guide`, `research_prompts` and `PERSIAN_PUNCTUATION` are constant text with no logic.
- The default `major_sections=8` of `build_outline` is not modelled. `Outline.BuildOutline` always takes the count as an argument.
- Default arguments and field defaults are not modelled. This covers `summary=""` of `add_chapter` and the `BookProject` defaults for `synopsis`, `audience`, `language`, `chapters` and `custom_guidelines`. `Book.AddChapter` takes every argument, and a `Book.BookProject` is built with every field given.
- `Text.CharClasses`: the Unicode tables for `\w`, `\s` and `str.lower` are abstract. Only their ASCII part is pinned down, by `Text.WellFormed`.
- `Analysis.Average`: gives the exact ratio as a `real`. `round(..., 2)` on binary floats is not modelled.
- `Analysis.FormatMetrics`: Python's printing of a rounded float average is the parameter `showFloat`. An average with nothing to divide by is the int 0, which is always printed `0`. The contract covers the report's opening lines; the section facts are in `Analysis.ReportLines` and the `Report*` lemmas.
- `Analysis.WordCount`: states only when the count is zero. That the count is the number of maximal word runs is `Text.RunsExact` applied to the runs it counts.
- `Text.SplitOn`: its contract alone does not pin down leftmost cutting when occurrences of the separator overlap (as in three newlines). `Text.SplitOnLeftmost` and `Text.SplitOnRest` state where every cut falls.
- `Book.LowerAll`: lowercases one character to one character. Python's `str.lower` can expand a character (for example U+0130 becomes two characters), which the model does not allow.
- `Book.SlugHasNoBreaker`: assumes `Book.LowerMakesNoBreaker`, that lowercasing produces a breaking character only from that character itself.
- `Book.SlugIdempotent`: makes the same assumption as `Book.SlugHasNoBreaker`.
- `Book.ChapterTemplate`: its contract states only the opening lines. The line-by-line structure is in `Book.TemplateShape`, `Book.TemplateSummaryLine` and `Book.TemplateGoalLines`.
