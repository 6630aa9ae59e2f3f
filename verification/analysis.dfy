/**
  The text analyser of the writing tools: paragraph, sentence and word
  statistics, long sentences, repeated whitespace and typography alerts
  over a draft, and the Markdown report that renders them
  (src/persian_writer/analysis.py).
 */
module Analysis {
  import opened Seqs
  import opened Text
  import opened Decimal

  /**
    The sentence terminators: `.`, the Arabic question mark U+061F, `!`
    and the full-width exclamation mark U+FF01. The ASCII `?` is not one.
   */
  predicate IsTerminator(c: char)
    ensures c == '?' || c == '\U{FF1F}' ==> !IsTerminator(c)
  {
    c == '.' || c == '\U{061F}' || c == '!' || c == '\U{FF01}'
  }

  /** Paragraphs are separated by a blank line. */
  const ParagraphBreak: string := "\n\n"

  /** A sentence with more whitespace-separated tokens than this is long. */
  const LongSentenceTokens: nat := 30

  /** The statistics of one draft. Averages are exact ratios. */
  datatype TextMetrics = TextMetrics(
    words: nat,
    sentences: nat,
    paragraphs: nat,
    averageSentenceLength: real,
    averageParagraphLength: real,
    longSentences: seq<string>,
    repeatedSpaces: seq<string>,
    typographyAlerts: seq<string>)

  /** A piece that still has something in it once stripped. */
  function NonBlank(space: char -> bool): string -> bool {
    s => !AllSpace(s, space)
  }

  /**
    `[p.strip() for p in pieces if p.strip()]`: the stripped pieces that
    are not blank, in order.
   */
  function StripAll(pieces: seq<string>, space: char -> bool): (r: seq<string>)
    ensures |r| == |Filter(pieces, NonBlank(space))|
    ensures forall k :: 0 <= k < |r| ==> r[k] != [] && IsTrimmed(r[k], space)
  {
    if pieces == [] then []
    else
      var t := Strip(pieces[0], space);
      (if t != [] then [t] else []) + StripAll(pieces[1..], space)
  }

  /** The k-th kept piece is the strip of the k-th piece that is not blank. */
  lemma {:induction false} StripAllKeeps(pieces: seq<string>, space: char -> bool)
    ensures forall k :: 0 <= k < |StripAll(pieces, space)| ==>
      StripAll(pieces, space)[k] == Strip(Filter(pieces, NonBlank(space))[k], space)
  {
    if pieces != [] {
      StripAllKeeps(pieces[1..], space);
      var r := StripAll(pieces, space);
      var rest := StripAll(pieces[1..], space);
      var kept := Filter(pieces, NonBlank(space));
      var keptRest := Filter(pieces[1..], NonBlank(space));
      if NonBlank(space)(pieces[0]) {
        assert kept == [pieces[0]] + keptRest;
        assert r == [Strip(pieces[0], space)] + rest;
        forall k | 0 < k < |r| ensures r[k] == Strip(kept[k], space) {
          assert r[k] == rest[k - 1] && kept[k] == keptRest[k - 1];
        }
      } else {
        assert kept == keptRest;
        assert r == rest;
      }
    }
  }

  /** The paragraphs of `text`: its blank-line-separated pieces, stripped, blanks dropped. */
  function Paragraphs(text: string, cc: CharClasses): (r: seq<string>)
    ensures forall k :: 0 <= k < |r| ==> r[k] != [] && IsTrimmed(r[k], cc.space)
    ensures |r| == |Filter(SplitOn(text, ParagraphBreak), NonBlank(cc.space))|
    ensures |r| <= |SplitOn(text, ParagraphBreak)|
  {
    StripAll(SplitOn(text, ParagraphBreak), cc.space)
  }

  /** The sentences of `text`: its pieces between terminators, stripped, blanks dropped. */
  function Sentences(text: string, cc: CharClasses): (r: seq<string>)
    ensures forall k :: 0 <= k < |r| ==> r[k] != [] && IsTrimmed(r[k], cc.space)
    ensures forall k, c :: 0 <= k < |r| && c in r[k] ==> !IsTerminator(c)
    ensures |r| <= |Filter(text, IsTerminator)| + 1
    ensures |r| == |Filter(SplitBy(text, IsTerminator), NonBlank(cc.space))|
    ensures forall k :: 0 <= k < |r| ==>
      r[k] == Strip(Filter(SplitBy(text, IsTerminator), NonBlank(cc.space))[k], cc.space)
  {
    var pieces := SplitBy(text, IsTerminator);
    StripAllAvoids(pieces, cc.space, IsTerminator);
    StripAllKeeps(pieces, cc.space);
    StripAll(pieces, cc.space)
  }

  /** Stripping and dropping blanks introduces no character the pieces did not have. */
  lemma {:induction false} StripAllAvoids(pieces: seq<string>, space: char -> bool, bad: char -> bool)
    requires forall k, c :: 0 <= k < |pieces| && c in pieces[k] ==> !bad(c)
    ensures forall k, c :: 0 <= k < |StripAll(pieces, space)| && c in StripAll(pieces, space)[k] ==> !bad(c)
  {
    var r := StripAll(pieces, space);
    var kept := Filter(pieces, NonBlank(space));
    StripAllKeeps(pieces, space);
    forall k | 0 <= k < |r| ensures forall c :: c in r[k] ==> !bad(c) {
      assert kept[k] in pieces;
      var j :| 0 <= j < |pieces| && pieces[j] == kept[k];
      StripMembers(kept[k], space);
    }
  }

  /** The characters that are not whitespace. */
  function NotSpace(space: char -> bool): char -> bool {
    c => !space(c)
  }

  /** `len(s.split())`: the number of maximal runs of non-whitespace. */
  function TokenCount(s: string, cc: CharClasses): (n: nat)
    ensures n == |Runs(s, NotSpace(cc.space))|
    ensures n == 0 <==> AllSpace(s, cc.space)
  {
    RunsEmpty(s, NotSpace(cc.space));
    |Runs(s, NotSpace(cc.space))|
  }

  /** `len(re.findall(r"\w+", text))`: the number of maximal runs of word characters. */
  function WordCount(text: string, cc: CharClasses): (n: nat)
    ensures n == 0 <==> forall k :: 0 <= k < |text| ==> !cc.word(text[k])
  {
    RunsEmpty(text, cc.word);
    |Runs(text, cc.word)|
  }

  /** `words / count`, or 0 when there is nothing to divide by. */
  function Average(words: nat, count: nat): (r: real)
    ensures count == 0 ==> r == 0.0
    ensures count > 0 ==> r * count as real == words as real
    ensures r >= 0.0
  {
    if count == 0 then 0.0 else words as real / count as real
  }

  /** A sentence is long when it has more than `LongSentenceTokens` tokens. */
  function IsLong(cc: CharClasses): string -> bool {
    s => TokenCount(s, cc) > LongSentenceTokens
  }

  /** The long sentences, in the order they were written. */
  function LongSentences(sentences: seq<string>, cc: CharClasses): (r: seq<string>)
    ensures forall s :: s in r <==> s in sentences && TokenCount(s, cc) > LongSentenceTokens
    ensures IsSubsequence(r, sentences)
    ensures forall s :: multiset(r)[s] == if TokenCount(s, cc) > LongSentenceTokens then multiset(sentences)[s] else 0
  {
    FilterIsSubsequence(sentences, IsLong(cc));
    FilterMultiplicity(sentences, IsLong(cc));
    Filter(sentences, IsLong(cc))
  }

  /** A run of at least two characters. */
  predicate Repeated(sp: Span) {
    sp.end - sp.start >= 2
  }

  /**
    Where `re.finditer(r"\s{2,}", text)` matches: exactly the maximal
    whitespace runs of length two or more, left to right.
   */
  function RepeatedSpaceSpans(text: string, cc: CharClasses): (r: seq<Span>)
    ensures forall sp :: sp in r <==> IsMaximalRun(text, cc.space, sp) && sp.end - sp.start >= 2
    ensures Ordered(r, Before)
  {
    RunsExact(text, cc.space);
    FilterOrdered(Runs(text, cc.space), Repeated, Before);
    Filter(Runs(text, cc.space), Repeated)
  }

  /** The text of each repeated-whitespace match, verbatim and in order. */
  function RepeatedSpaces(text: string, cc: CharClasses): (r: seq<string>)
    ensures |r| == |RepeatedSpaceSpans(text, cc)|
    ensures forall k :: 0 <= k < |r| ==> |r[k]| >= 2 && AllSpace(r[k], cc.space)
    ensures forall k :: 0 <= k < |r| ==> OccursAt(text, r[k], RepeatedSpaceSpans(text, cc)[k].start)
    ensures forall k :: 0 <= k < |r| ==> |r[k]| == RepeatedSpaceSpans(text, cc)[k].end - RepeatedSpaceSpans(text, cc)[k].start
  {
    var spans := RepeatedSpaceSpans(text, cc);
    seq(|spans|, k requires 0 <= k < |spans| =>
      assert spans[k] in spans;
      text[spans[k].start..spans[k].end])
  }

  /** No whitespace is repeated exactly when no two neighbouring characters are both whitespace. */
  lemma {:induction false} RepeatedSpacesEmpty(text: string, cc: CharClasses)
    ensures RepeatedSpaces(text, cc) == [] <==> !HasAdjacent(text, cc.space)
  {
    var spans := RepeatedSpaceSpans(text, cc);
    if HasAdjacent(text, cc.space) {
      var i :| 0 <= i < |text| - 1 && cc.space(text[i]) && cc.space(text[i + 1]);
      RunsFromCoverPair(text, cc.space, 0, i);
      var sp :| sp in Runs(text, cc.space) && sp.end - sp.start >= 2;
      assert sp in spans;
    }
    if spans != [] {
      var sp := spans[0];
      assert sp in spans;
      assert cc.space(text[sp.start]) && cc.space(text[sp.start + 1]);
    }
  }

  /** A typography check: the pattern to look for and the alert it raises. */
  datatype Rule = Rule(pattern: string, message: string)

  const CommaAlert: string := "فاصله قبل از ویرگول را حذف کنید."
  const SemicolonAlert: string := "فاصله قبل از نقطه ویرگول نباید باشد."
  const ExclamationAlert: string := "از دو علامت تعجب پشت سر هم پرهیز کنید."
  const QuestionAlert: string := "از چند علامت سوال پشت سر هم پرهیز کنید."

  /** The typography checks, in the order they are run. */
  const Rules: seq<Rule> := [
    Rule(" ,", CommaAlert),
    Rule(" ;", SemicolonAlert),
    Rule("! !", ExclamationAlert),
    Rule("? ?", QuestionAlert)
  ]

  function Messages(rules: seq<Rule>): (r: seq<string>)
    ensures |r| == |rules| && forall k :: 0 <= k < |r| ==> r[k] == rules[k].message
  {
    seq(|rules|, k requires 0 <= k < |rules| => rules[k].message)
  }

  /**
    One alert per rule whose pattern occurs in `text`, however often it
    occurs, in rule order.
   */
  function AlertsFor(text: string, rules: seq<Rule>): (r: seq<string>)
    requires NoDuplicates(Messages(rules))
    ensures |r| <= |rules|
    ensures IsSubsequence(r, Messages(rules))
    ensures forall m :: m in r ==> m in Messages(rules)
    ensures forall k :: 0 <= k < |rules| ==> (rules[k].message in r <==> Contains(text, rules[k].pattern))
  {
    if rules == [] then []
    else
      assert Messages(rules)[1..] == Messages(rules[1..]);
      assert NoDuplicates(Messages(rules[1..])) by {
        forall i, j | 0 <= i < j < |rules[1..]| ensures Messages(rules[1..])[i] != Messages(rules[1..])[j] {
          assert Messages(rules)[i + 1] != Messages(rules)[j + 1];
        }
      }
      var rest := AlertsFor(text, rules[1..]);
      assert rules[0].message !in rest by {
        forall k | 0 <= k < |rules[1..]| ensures rules[1..][k].message != rules[0].message {
          assert Messages(rules)[0] != Messages(rules)[k + 1];
        }
      }
      if Contains(text, rules[0].pattern) then
        var r := [rules[0].message] + rest;
        assert r[1..] == rest;
        r
      else rest
  }

  /**
    The alerts of the four typography checks: at most one per check, none
    twice, in check order, each present exactly when its pattern occurs.
   */
  function TypographyAlerts(text: string): (r: seq<string>)
    ensures |r| <= 4
    ensures NoDuplicates(r)
    ensures IsSubsequence(r, [CommaAlert, SemicolonAlert, ExclamationAlert, QuestionAlert])
    ensures CommaAlert in r <==> Contains(text, " ,")
    ensures SemicolonAlert in r <==> Contains(text, " ;")
    ensures ExclamationAlert in r <==> Contains(text, "! !")
    ensures QuestionAlert in r <==> Contains(text, "? ?")
  {
    var messages := Messages(Rules);
    assert messages == [CommaAlert, SemicolonAlert, ExclamationAlert, QuestionAlert];
    assert NoDuplicates(messages) by {
      assert |CommaAlert| == 32 && |SemicolonAlert| == 36;
      assert |ExclamationAlert| == 38 && |QuestionAlert| == 39;
    }
    var r := AlertsFor(text, Rules);
    SubsequenceNoDuplicates(r, messages);
    assert Rules[0].message == CommaAlert && Rules[0].pattern == " ,";
    assert Rules[1].message == SemicolonAlert && Rules[1].pattern == " ;";
    assert Rules[2].message == ExclamationAlert && Rules[2].pattern == "! !";
    assert Rules[3].message == QuestionAlert && Rules[3].pattern == "? ?";
    r
  }

  /** Each average is the word count per item, or 0 when there are no items. */
  ghost predicate AveragesConsistent(m: TextMetrics) {
    && (m.sentences == 0 ==> m.averageSentenceLength == 0.0)
    && (m.sentences > 0 ==> m.averageSentenceLength * m.sentences as real == m.words as real)
    && (m.paragraphs == 0 ==> m.averageParagraphLength == 0.0)
    && (m.paragraphs > 0 ==> m.averageParagraphLength * m.paragraphs as real == m.words as real)
  }

  /** The record of statistics, with the averages worked out from the counts. */
  function Assemble(words: nat, sentences: nat, paragraphs: nat, long: seq<string>, repeated: seq<string>, alerts: seq<string>): (m: TextMetrics)
    ensures AveragesConsistent(m)
    ensures m.words == words && m.sentences == sentences && m.paragraphs == paragraphs
    ensures m.longSentences == long && m.repeatedSpaces == repeated && m.typographyAlerts == alerts
  {
    TextMetrics(words, sentences, paragraphs, Average(words, sentences), Average(words, paragraphs), long, repeated, alerts)
  }

  /** `analyze_text`: the statistics of one draft. */
  function Analyze(text: string, cc: CharClasses): (m: TextMetrics)
    ensures m.paragraphs == |Paragraphs(text, cc)| && m.sentences == |Sentences(text, cc)|
    ensures m.words == 0 <==> forall k :: 0 <= k < |text| ==> !cc.word(text[k])
    ensures m.sentences <= |Filter(text, IsTerminator)| + 1
    ensures forall s :: s in m.longSentences <==> s in Sentences(text, cc) && TokenCount(s, cc) > LongSentenceTokens
    ensures m.repeatedSpaces == [] <==> !HasAdjacent(text, cc.space)
    ensures |m.typographyAlerts| <= 4
    ensures AveragesConsistent(m)
    ensures m.words == WordCount(text, cc)
    ensures m.longSentences == LongSentences(Sentences(text, cc), cc)
    ensures m.repeatedSpaces == RepeatedSpaces(text, cc)
    ensures m.typographyAlerts == TypographyAlerts(text)
  {
    var paragraphs := Paragraphs(text, cc);
    var sentences := Sentences(text, cc);
    var words := WordCount(text, cc);
    RepeatedSpacesEmpty(text, cc);
    Assemble(
      words,
      |sentences|,
      |paragraphs|,
      LongSentences(sentences, cc),
      RepeatedSpaces(text, cc),
      TypographyAlerts(text))
  }

  const MetricsHeader: string := "## شاخص\U{200C}های متن\n"
  const WordsLabel: string := "- تعداد واژه\U{200C}ها: "
  const SentencesLabel: string := "- تعداد جمله\U{200C}ها: "
  const ParagraphsLabel: string := "- تعداد پاراگراف\U{200C}ها: "
  const AverageSentenceLabel: string := "- میانگین طول جمله: "
  const AverageParagraphLabel: string := "- میانگین طول پاراگراف: "
  const WordsUnit: string := " واژه\n"
  const LongSentencesHeader: string := "جمله\U{200C}های بلند (بیش از ۳۰ واژه):\n"
  const RepeatedSpacesWarning: string := "هشدار: فاصله\U{200C}های تکراری پیدا شد.\n"
  const AlertsHeader: string := "هشدارهای ویرایشی:\n"

  /**
    How an average is printed. With nothing to divide by, `analyze_text`
    stores the int `0`, printed `0`; otherwise it stores a rounded float,
    even when that float is zero, and `showFloat` is how Python prints it.
   */
  function AverageText(count: nat, average: real, showFloat: real -> string): string {
    if count == 0 then "0" else showFloat(average)
  }

  /** The report's heading, the three counts and the two averages, then a blank line. */
  function SummaryLines(m: TextMetrics, showFloat: real -> string): seq<string> {
    [ MetricsHeader,
      WordsLabel + NatToString(m.words) + "\n",
      SentencesLabel + NatToString(m.sentences) + "\n",
      ParagraphsLabel + NatToString(m.paragraphs) + "\n",
      AverageSentenceLabel + AverageText(m.sentences, m.averageSentenceLength, showFloat) + WordsUnit,
      AverageParagraphLabel + AverageText(m.paragraphs, m.averageParagraphLength, showFloat) + WordsUnit,
      "\n" ]
  }

  function LongSentencesSection(long: seq<string>): seq<string> {
    if long == [] then [] else [LongSentencesHeader] + Bullets(long) + ["\n"]
  }

  function RepeatedSpacesSection(repeated: seq<string>): seq<string> {
    if repeated == [] then [] else [RepeatedSpacesWarning]
  }

  function AlertsSection(alerts: seq<string>): seq<string> {
    if alerts == [] then [] else [AlertsHeader] + Bullets(alerts)
  }

  /**
    The lines of the report, before they are joined: the seven summary
    lines, then each section only when it has something to show.
   */
  function ReportLines(m: TextMetrics, showFloat: real -> string): (lines: seq<string>)
    ensures |lines| == 7
      + (if m.longSentences == [] then 0 else |m.longSentences| + 2)
      + (if m.repeatedSpaces == [] then 0 else 1)
      + (if m.typographyAlerts == [] then 0 else |m.typographyAlerts| + 1)
    ensures lines[..7] == SummaryLines(m, showFloat)
  {
    SummaryLines(m, showFloat)
      + LongSentencesSection(m.longSentences)
      + RepeatedSpacesSection(m.repeatedSpaces)
      + AlertsSection(m.typographyAlerts)
  }

  /**
    `format_metrics`: the Markdown report. Python's rendering of a
    rounded float average is the parameter `showFloat`.
   */
  function FormatMetrics(m: TextMetrics, showFloat: real -> string): (report: string)
    ensures MetricsHeader <= report
    ensures Concat(SummaryLines(m, showFloat)) <= report
  {
    var summary := SummaryLines(m, showFloat);
    var rest := ReportLines(m, showFloat)[7..];
    assert ReportLines(m, showFloat) == summary + rest;
    ConcatAppend(summary, rest);
    assert Concat(summary) == MetricsHeader + Concat(summary[1..]);
    Concat(ReportLines(m, showFloat))
  }

  /** The summary block holds none of the section headings. */
  lemma {:induction false} SummaryHasNoHeading(m: TextMetrics, showFloat: real -> string)
    ensures var summary := SummaryLines(m, showFloat);
      && LongSentencesHeader !in summary
      && RepeatedSpacesWarning !in summary
      && AlertsHeader !in summary
  {
    var summary := SummaryLines(m, showFloat);
    assert forall x :: x in summary ==> x[0] in {'#', '-', '\n'};
    assert LongSentencesHeader[0] == '\U{062C}';
    assert RepeatedSpacesWarning[0] == '\U{0647}';
    assert AlertsHeader[0] == '\U{0647}';
  }

  /** The long-sentence section holds its own heading, and only when it is non-empty. */
  lemma {:induction false} LongSectionHeadings(long: seq<string>)
    ensures var section := LongSentencesSection(long);
      && (LongSentencesHeader in section <==> long != [])
      && RepeatedSpacesWarning !in section
      && AlertsHeader !in section
  {
    HeadingsDiffer();
    if long != [] {
      assert LongSentencesSection(long) == [LongSentencesHeader] + Bullets(long) + ["\n"];
      BulletsAreItems(RepeatedSpacesWarning, long);
      BulletsAreItems(AlertsHeader, long);
      assert RepeatedSpacesWarning != "\n" && AlertsHeader != "\n";
    }
  }

  /** The warning section holds the warning only, and only when whitespace was repeated. */
  lemma {:induction false} WarningSectionHeadings(repeated: seq<string>)
    ensures var section := RepeatedSpacesSection(repeated);
      && (RepeatedSpacesWarning in section <==> repeated != [])
      && LongSentencesHeader !in section
      && AlertsHeader !in section
  {
    assert |LongSentencesHeader| == 32 && |RepeatedSpacesWarning| == 33 && |AlertsHeader| == 18;
  }

  /** The alerts section holds its own heading, and only when there are alerts. */
  lemma {:induction false} AlertsSectionHeadings(alerts: seq<string>)
    ensures var section := AlertsSection(alerts);
      && (AlertsHeader in section <==> alerts != [])
      && LongSentencesHeader !in section
      && RepeatedSpacesWarning !in section
  {
    HeadingsDiffer();
    if alerts != [] {
      assert AlertsSection(alerts) == [AlertsHeader] + Bullets(alerts);
      BulletsAreItems(LongSentencesHeader, alerts);
      BulletsAreItems(RepeatedSpacesWarning, alerts);
    }
  }

  /** The three section headings are different lines, and none is a list item. */
  lemma {:induction false} HeadingsDiffer()
    ensures LongSentencesHeader != RepeatedSpacesWarning && RepeatedSpacesWarning != AlertsHeader
    ensures AlertsHeader != LongSentencesHeader
    ensures LongSentencesHeader[0] != '-' && RepeatedSpacesWarning[0] != '-' && AlertsHeader[0] != '-'
  {
    assert |LongSentencesHeader| == 32 && |RepeatedSpacesWarning| == 33 && |AlertsHeader| == 18;
  }

  /**
    The long-sentence heading appears exactly when there are long
    sentences; it follows the summary block and is followed by one line
    per long sentence, in order.
   */
  lemma {:induction false} ReportLongSentences(m: TextMetrics, showFloat: real -> string)
    ensures var lines := ReportLines(m, showFloat);
      && (LongSentencesHeader in lines <==> m.longSentences != [])
      && (m.longSentences != [] ==>
            lines[7] == LongSentencesHeader && lines[8..8 + |m.longSentences|] == Bullets(m.longSentences))
  {
    var summary := SummaryLines(m, showFloat);
    var long := LongSentencesSection(m.longSentences);
    var warning := RepeatedSpacesSection(m.repeatedSpaces);
    var alerts := AlertsSection(m.typographyAlerts);
    SummaryHasNoHeading(m, showFloat);
    LongSectionHeadings(m.longSentences);
    WarningSectionHeadings(m.repeatedSpaces);
    AlertsSectionHeadings(m.typographyAlerts);
    InConcat4(LongSentencesHeader, summary, long, warning, alerts);
    if m.longSentences != [] {
      LongSentencesPlaced(m, showFloat);
    }
  }

  /** Where the long-sentence section sits in a report that has one. */
  lemma {:induction false} LongSentencesPlaced(m: TextMetrics, showFloat: real -> string)
    requires m.longSentences != []
    ensures var lines := ReportLines(m, showFloat);
      && |lines| >= 8 + |m.longSentences|
      && lines[7] == LongSentencesHeader
      && lines[8..8 + |m.longSentences|] == Bullets(m.longSentences)
  {
    var lines := ReportLines(m, showFloat);
    var long := LongSentencesSection(m.longSentences);
    var n := |m.longSentences|;
    MiddleOfFour(SummaryLines(m, showFloat), long, RepeatedSpacesSection(m.repeatedSpaces),
      AlertsSection(m.typographyAlerts));
    assert lines[7..7 + |long|] == long;
    SliceOfSlice(lines, 7, 7 + |long|, 1, 1 + n);
  }


  /** The repeated-whitespace warning appears exactly when whitespace was repeated. */
  lemma {:induction false} ReportRepeatedSpaces(m: TextMetrics, showFloat: real -> string)
    ensures RepeatedSpacesWarning in ReportLines(m, showFloat) <==> m.repeatedSpaces != []
  {
    SummaryHasNoHeading(m, showFloat);
    LongSectionHeadings(m.longSentences);
    WarningSectionHeadings(m.repeatedSpaces);
    AlertsSectionHeadings(m.typographyAlerts);
    InConcat4(RepeatedSpacesWarning, SummaryLines(m, showFloat), LongSentencesSection(m.longSentences),
      RepeatedSpacesSection(m.repeatedSpaces), AlertsSection(m.typographyAlerts));
  }

  /**
    The alerts heading appears exactly when there are alerts; the report
    then ends with it and one line per alert, in order.
   */
  lemma {:induction false} ReportAlerts(m: TextMetrics, showFloat: real -> string)
    ensures var lines := ReportLines(m, showFloat);
      && (AlertsHeader in lines <==> m.typographyAlerts != [])
      && (m.typographyAlerts != [] ==>
            && lines[|lines| - |m.typographyAlerts| - 1] == AlertsHeader
            && lines[|lines| - |m.typographyAlerts|..] == Bullets(m.typographyAlerts))
  {
    var summary := SummaryLines(m, showFloat);
    var long := LongSentencesSection(m.longSentences);
    var warning := RepeatedSpacesSection(m.repeatedSpaces);
    var alerts := AlertsSection(m.typographyAlerts);
    SummaryHasNoHeading(m, showFloat);
    LongSectionHeadings(m.longSentences);
    WarningSectionHeadings(m.repeatedSpaces);
    AlertsSectionHeadings(m.typographyAlerts);
    InConcat4(AlertsHeader, summary, long, warning, alerts);
    if m.typographyAlerts != [] {
      AlertsPlaced(m, showFloat);
    }
  }

  /** Where the alerts section sits in a report that has one: at the end. */
  lemma {:induction false} AlertsPlaced(m: TextMetrics, showFloat: real -> string)
    requires m.typographyAlerts != []
    ensures var lines := ReportLines(m, showFloat);
      var n := |m.typographyAlerts|;
      && |lines| >= n + 1
      && lines[|lines| - n - 1] == AlertsHeader
      && lines[|lines| - n..] == Bullets(m.typographyAlerts)
  {
    var front := SummaryLines(m, showFloat) + LongSentencesSection(m.longSentences)
      + RepeatedSpacesSection(m.repeatedSpaces);
    assert ReportLines(m, showFloat) == front + ([AlertsHeader] + Bullets(m.typographyAlerts));
    SectionAtEnd(front, AlertsHeader, Bullets(m.typographyAlerts));
  }

  /** A section appended last: its heading, then its items, end the lines. */
  lemma {:induction false} SectionAtEnd(front: seq<string>, header: string, items: seq<string>)
    ensures var lines := front + ([header] + items);
      && lines[|lines| - |items| - 1] == header
      && lines[|lines| - |items|..] == items
  {
    var lines := front + ([header] + items);
    assert lines[|front|] == header;
    SliceAfterPrefix(front + [header], items, |lines| - |items|, |lines|);
    assert lines == (front + [header]) + items;
  }

  /** An empty draft has no words, sentences or paragraphs, zero averages and empty lists. */
  lemma {:induction false} AnalyzeEmpty(cc: CharClasses)
    ensures Analyze("", cc) == TextMetrics(0, 0, 0, 0.0, 0.0, [], [], [])
  {
    assert SplitOn("", ParagraphBreak) == [""];
    assert SplitBy("", IsTerminator) == [""];
    assert Strip("", cc.space) == "";
    assert Runs("", cc.word) == [];
    assert Runs("", cc.space) == [];
    var alerts := TypographyAlerts("");
    SubsequenceMembers(alerts, [CommaAlert, SemicolonAlert, ExclamationAlert, QuestionAlert]);
    NoRoomNoOccurrence("", " ,");
    NoRoomNoOccurrence("", " ;");
    NoRoomNoOccurrence("", "! !");
    NoRoomNoOccurrence("", "? ?");
    NoMembersEmpty(alerts);
  }

  /** The report lines of an empty draft. */
  const EmptyReportLines: seq<string> := [
    MetricsHeader,
    WordsLabel + "0" + "\n",
    SentencesLabel + "0" + "\n",
    ParagraphsLabel + "0" + "\n",
    AverageSentenceLabel + "0" + WordsUnit,
    AverageParagraphLabel + "0" + WordsUnit,
    "\n"
  ]

  /**
    An empty draft has no sentences and no paragraphs, so both averages
    are the int 0: the report is fixed, whatever the float formatting.
   */
  lemma {:induction false} EmptyDraftReport(cc: CharClasses, showFloat: real -> string)
    ensures ReportLines(Analyze("", cc), showFloat) == EmptyReportLines
  {
    AnalyzeEmpty(cc);
    ZeroMetricsReport(showFloat);
  }

  /** The report of all-zero statistics with empty lists. */
  lemma {:induction false} ZeroMetricsReport(showFloat: real -> string)
    ensures ReportLines(TextMetrics(0, 0, 0, 0.0, 0.0, [], [], []), showFloat) == EmptyReportLines
  {
    var m := TextMetrics(0, 0, 0, 0.0, 0.0, [], [], []);
    assert NatToString(0) == "0";
    assert ReportLines(m, showFloat) == SummaryLines(m, showFloat) + [] + [] + [];
  }

  /**
    A draft with sentences but no words (such as a lone `-`) has the float
    average 0.0, which is printed by `showFloat`, unlike the int 0 of a
    draft without sentences.
   */
  lemma {:induction false} ZeroFloatAverage(m: TextMetrics, showFloat: real -> string)
    requires m.sentences > 0
    ensures ReportLines(m, showFloat)[4] == AverageSentenceLabel + showFloat(m.averageSentenceLength) + WordsUnit
  {
    assert ReportLines(m, showFloat)[..7] == SummaryLines(m, showFloat);
    assert ReportLines(m, showFloat)[4] == ReportLines(m, showFloat)[..7][4];
  }
}
