/**
  The book project's in-memory logic: chapter records, the file-name
  slug of a chapter title, appending a chapter, and the Markdown skeleton
  written for a new chapter (src/persian_writer/book.py).
 */
module Book {
  import opened Seqs
  import opened Text
  import opened Decimal

  datatype Option<T> = None | Some(value: T)

  /** One chapter of the book, as recorded in the project file. */
  datatype Chapter = Chapter(
    title: string,
    filename: string,
    summary: string,
    goals: seq<string>,
    draftStatus: string)

  /** The project's metadata. `root` is the project directory, kept as a path string. */
  datatype BookProject = BookProject(
    root: string,
    title: string,
    author: string,
    genre: string,
    tone: string,
    targetLengthWords: int,
    createdAt: string,
    synopsis: string,
    audience: string,
    language: string,
    chapters: seq<Chapter>,
    customGuidelines: seq<string>)

  /** The status every new chapter starts in. */
  const NotStarted: string := "not-started"

  // ---------------------------------------------------------------- slugs

  /** The characters the slug loop replaces after spaces, in loop order (`؛` is listed three times). */
  const SlugLoopChars: string := "\U{200C}\t\n\r\U{060C}\U{061F}\U{061B}!\U{061B}\U{061B}"

  /** A character that `_slugify` turns into `-`. */
  predicate IsSlugBreaker(c: char) {
    c == ' ' || c in SlugLoopChars
  }

  /** What one character of the stripped title becomes before lowercasing. */
  function SlugChar(c: char): char {
    if IsSlugBreaker(c) then '-' else c
  }

  /** `s.replace(bad, "-")` for a one-character `bad`. */
  function ReplaceChar(s: string, bad: char): (r: string)
    ensures |r| == |s|
    ensures forall k :: 0 <= k < |s| ==> r[k] == if s[k] == bad then '-' else s[k]
  {
    if s == [] then []
    else (if s[0] == bad then "-" else [s[0]]) + ReplaceChar(s[1..], bad)
  }

  /** The loop `for bad in bads: s = s.replace(bad, "-")`. */
  function ReplaceEach(s: string, bads: string): (r: string)
    decreases |bads|
    ensures |r| == |s|
    ensures forall k :: 0 <= k < |s| ==> r[k] == if s[k] in bads then '-' else s[k]
  {
    if bads == [] then s else ReplaceEach(ReplaceChar(s, bads[0]), bads[1..])
  }

  /**
    The slug before lowercasing: spaces, then every character of the loop
    set, replaced by `-`. The replacement is one for one, so the length
    is kept and each character becomes `SlugChar` of itself.
   */
  function Normalize(s: string): (r: string)
    ensures |r| == |s|
    ensures forall k :: 0 <= k < |s| ==> r[k] == SlugChar(s[k])
  {
    ReplaceEach(ReplaceChar(s, ' '), SlugLoopChars)
  }

  /** `s.lower()`, one character at a time. */
  function LowerAll(s: string, lower: char -> char): (r: string)
    ensures |r| == |s|
    ensures forall k :: 0 <= k < |s| ==> r[k] == lower(s[k])
  {
    if s == [] then [] else [lower(s[0])] + LowerAll(s[1..], lower)
  }

  /** `BookProject._slugify`: strip, replace the breaking characters by `-`, lowercase. */
  function Slugify(text: string, cc: CharClasses): (slug: string)
    ensures |slug| == |Strip(text, cc.space)|
    ensures forall k :: 0 <= k < |slug| ==> slug[k] == cc.lower(SlugChar(Strip(text, cc.space)[k]))
  {
    LowerAll(Normalize(Strip(text, cc.space)), cc.lower)
  }

  /**
    Lowercasing never produces a slug-breaking character from a different
    character (true of Unicode's lowercase mapping, which only changes
    letters and only into letters).
   */
  ghost predicate LowerMakesNoBreaker(cc: CharClasses) {
    forall c: char :: IsSlugBreaker(cc.lower(c)) ==> cc.lower(c) == c
  }

  /** A slug holds no space, zero-width non-joiner, tab, line break or listed punctuation mark. */
  lemma {:induction false} SlugHasNoBreaker(text: string, cc: CharClasses)
    requires WellFormed(cc) && LowerMakesNoBreaker(cc)
    ensures forall k :: 0 <= k < |Slugify(text, cc)| ==> !IsSlugBreaker(Slugify(text, cc)[k])
  {
    var slug := Slugify(text, cc);
    var stripped := Strip(text, cc.space);
    forall k | 0 <= k < |slug| ensures !IsSlugBreaker(slug[k]) {
      SlugCharSafe(stripped[k], cc);
    }
  }

  /** One character of a title never becomes a breaking character of the slug. */
  lemma {:induction false} SlugCharSafe(c: char, cc: CharClasses)
    requires WellFormed(cc) && LowerMakesNoBreaker(cc)
    ensures !IsSlugBreaker(cc.lower(SlugChar(c)))
  {
    if IsSlugBreaker(c) {
      assert cc.lower('-') == AsciiLower('-');
    }
  }

  /** Each breaking character of the stripped title becomes `-` in the slug. */
  lemma {:induction false} SlugBreakersBecomeDashes(text: string, cc: CharClasses, k: int)
    requires WellFormed(cc)
    requires 0 <= k < |Strip(text, cc.space)| && IsSlugBreaker(Strip(text, cc.space)[k])
    ensures Slugify(text, cc)[k] == '-'
  {
    assert cc.lower('-') == AsciiLower('-');
  }

  /** Stripping comes first, so a slug neither starts nor ends with whitespace. */
  lemma {:induction false} SlugTrimmed(text: string, cc: CharClasses)
    requires WellFormed(cc)
    ensures IsTrimmed(Slugify(text, cc), cc.space)
  {
    var slug := Slugify(text, cc);
    var stripped := Strip(text, cc.space);
    if slug != [] {
      SlugCharVisible(stripped[0], cc);
      SlugCharVisible(stripped[|slug| - 1], cc);
    }
  }

  /** A visible character stays visible in the slug. */
  lemma {:induction false} SlugCharVisible(c: char, cc: CharClasses)
    requires WellFormed(cc) && !cc.space(c)
    ensures !cc.space(cc.lower(SlugChar(c)))
  {
    assert !cc.space('-') by {
      assert '-' !in AsciiSpaces;
    }
  }

  /** Slugifying a slug changes nothing. */
  lemma {:induction false} SlugIdempotent(text: string, cc: CharClasses)
    requires WellFormed(cc) && LowerMakesNoBreaker(cc)
    ensures Slugify(Slugify(text, cc), cc) == Slugify(text, cc)
  {
    var slug := Slugify(text, cc);
    assert Strip(slug, cc.space) == slug by {
      SlugTrimmed(text, cc);
      StripTrimmed(slug, cc.space);
    }
    assert forall k :: 0 <= k < |slug| ==> cc.lower(SlugChar(slug[k])) == slug[k] by {
      var stripped := Strip(text, cc.space);
      forall k | 0 <= k < |slug| ensures cc.lower(SlugChar(slug[k])) == slug[k] {
        SlugCharSettled(stripped[k], cc);
      }
    }
    SettledSlug(slug, cc);
  }

  /** A string whose every character is its own slug character is its own slug, once stripped. */
  lemma {:induction false} SettledSlug(s: string, cc: CharClasses)
    requires forall k :: 0 <= k < |s| ==> cc.lower(SlugChar(s[k])) == s[k]
    ensures LowerAll(Normalize(s), cc.lower) == s
  {
  }

  /** A character of a slug is its own slug character. */
  lemma {:induction false} SlugCharSettled(c: char, cc: CharClasses)
    requires WellFormed(cc) && LowerMakesNoBreaker(cc)
    ensures var d := cc.lower(SlugChar(c)); cc.lower(SlugChar(d)) == d
  {
    SlugCharSafe(c, cc);
  }

  // ------------------------------------------------------- adding a chapter

  /** The file name of chapter number `index`: `f"{index:02d}-{slug}.md"`. */
  function ChapterFileName(index: nat, title: string, cc: CharClasses): (name: string)
    ensures var digits := LeadingDigits(name);
      && digits == ZeroPad2(index)
      && ParseDigits(digits) == index
      && name[|digits|..] == "-" + Slugify(title, cc) + ".md"
  {
    var pad := ZeroPad2(index);
    var rest := "-" + Slugify(title, cc) + ".md";
    LeadingDigitsOf(pad, rest);
    assert (pad + rest)[|pad|..] == rest;
    pad + rest
  }

  /** Chapters with different numbers get different file names, whatever their titles. */
  lemma {:induction false} FileNamesDiffer(i: nat, j: nat, a: string, b: string, cc: CharClasses)
    requires i != j
    ensures ChapterFileName(i, a, cc) != ChapterFileName(j, b, cc)
  {
  }

  /** `goals or []`. */
  function GoalsOrEmpty(goals: Option<seq<string>>): seq<string> {
    if goals.Some? then goals.value else []
  }

  /**
    `BookProject.add_chapter` without the file writes: the new chapter,
    numbered one past the existing ones, is appended and returned.
   */
  function AddChapter(p: BookProject, title: string, summary: string, goals: Option<seq<string>>, cc: CharClasses)
    : (r: (BookProject, Chapter))
    ensures r.0.chapters == p.chapters + [r.1]
    ensures r.0 == p.(chapters := r.0.chapters)
    ensures r.1.title == title && r.1.summary == summary && r.1.draftStatus == NotStarted
    ensures goals.None? ==> r.1.goals == []
    ensures goals.Some? ==> r.1.goals == goals.value
    ensures r.1.filename == ChapterFileName(|p.chapters| + 1, title, cc)
    ensures FileNumber(r.1.filename) == |p.chapters| + 1
  {
    var chapter := Chapter(title, ChapterFileName(|p.chapters| + 1, title, cc), summary, GoalsOrEmpty(goals), NotStarted);
    (p.(chapters := p.chapters + [chapter]), chapter)
  }

  /** Chapter `k` (counting from 0) has a file name starting with the numeral of `k + 1`. */
  ghost predicate Numbered(p: BookProject) {
    NumberedFrom(p.chapters)
  }

  /** The number a chapter file name starts with. */
  function FileNumber(filename: string): nat {
    ParseDigits(LeadingDigits(filename))
  }

  ghost predicate NumberedFrom(chapters: seq<Chapter>) {
    forall k :: 0 <= k < |chapters| ==> FileNumber(chapters[k].filename) == k + 1
  }

  /** Adding a chapter keeps the chapters numbered in order. */
  lemma {:induction false} AddChapterKeepsNumbered(p: BookProject, title: string, summary: string, goals: Option<seq<string>>, cc: CharClasses)
    requires Numbered(p)
    ensures Numbered(AddChapter(p, title, summary, goals, cc).0)
  {
    var r := AddChapter(p, title, summary, goals, cc);
    NumberedAppend(p.chapters, r.1);
  }

  lemma {:induction false} NumberedAppend(chapters: seq<Chapter>, c: Chapter)
    requires NumberedFrom(chapters) && FileNumber(c.filename) == |chapters| + 1
    ensures NumberedFrom(chapters + [c])
  {
    var all := chapters + [c];
    forall k | 0 <= k < |all| ensures FileNumber(all[k].filename) == k + 1 {
      if k < |chapters| {
        assert all[k] == chapters[k];
      }
    }
  }

  /** In a numbered project no two chapters share a file. */
  lemma {:induction false} NumberedFileNamesDistinct(p: BookProject)
    requires Numbered(p)
    ensures forall i, j :: 0 <= i < j < |p.chapters| ==> p.chapters[i].filename != p.chapters[j].filename
  {
  }

  // ------------------------------------------------------ chapter template

  const SummaryPlaceholder: string := "(اینجا خلاصه فصل را بنویسید)"
  const SummaryHeading: string := "خلاصه:\n"
  const GoalsHeading: string := "اهداف فصل:\n"

  /** The goals suggested when a chapter has none. */
  const DefaultGoals: seq<string> := [
    "با معرفی مسئله یا سوال اصلی شروع کنید.",
    "از روایت\U{200C}ها و مثال\U{200C}های ملموس فارسی استفاده کنید.",
    "از نقل قول\U{200C}های معتبر برای تقویت استدلال بهره بگیرید."
  ]

  /** The fixed lines after the goals: suggested structure, body, revision checklist, sources. */
  const TemplateTail: seq<string> := [
    "\n",
    "## ساختار پیشنهادی\n",
    "1. مقدمه و طرح پرسش\n",
    "2. ارائه زمینه و پیش\U{200C}فرض\U{200C}ها\n",
    "3. بسط ایده\U{200C}ها با نمونه\U{200C}های مستند\n",
    "4. جمع\U{200C}بندی موقت و طرح پرسش بعدی\n",
    "5. یادداشت\U{200C}های پژوهشی و منابع\n",
    "\n",
    "## بدنه فصل\n",
    "(اینجا پیش\U{200C}نویس کامل فصل را بنویسید)\n",
    "\n",
    "## بازنویسی و ویرایش\n",
    "- وضوح جملات را بررسی کنید.\n",
    "- لحن را با لحن کلی کتاب هماهنگ نگه دارید.\n",
    "- اطمینان از پیوستگی منطقی بخش\U{200C}ها.\n",
    "\n",
    "## فهرست منابع فصل\n",
    "- نویسنده، «عنوان»، ناشر، سال.\n"
  ]

  /** The summary line: the summary itself, or the placeholder when it is empty. */
  function SummaryLine(summary: string): string {
    (if summary != [] then summary else SummaryPlaceholder) + "\n\n"
  }

  /** `chapter.goals or [defaults]`. */
  function GoalsOrDefault(goals: seq<string>): seq<string> {
    if goals != [] then goals else DefaultGoals
  }

  /**
    The lines of the template, before they are joined: the title line, a
    blank line, the summary heading and line, the goals heading, one line
    per goal (or default goal), then the fixed tail.
   */
  function TemplateLines(ch: Chapter): (lines: seq<string>)
    ensures |lines| == 5 + |GoalsOrDefault(ch.goals)| + |TemplateTail|
    ensures lines[0] == "# " + ch.title + "\n" && lines[1] == "\n" && lines[2] == SummaryHeading
    ensures lines[3] == SummaryLine(ch.summary) && lines[4] == GoalsHeading
    ensures lines[5..5 + |GoalsOrDefault(ch.goals)|] == Bullets(GoalsOrDefault(ch.goals))
    ensures lines[|lines| - |TemplateTail|..] == TemplateTail
  {
    ["# " + ch.title + "\n", "\n", SummaryHeading, SummaryLine(ch.summary), GoalsHeading]
      + Bullets(GoalsOrDefault(ch.goals))
      + TemplateTail
  }

  /** `BookProject._chapter_template`: the Markdown skeleton of a new chapter file. */
  function ChapterTemplate(ch: Chapter): (text: string)
    ensures "# " + ch.title + "\n\n" + SummaryHeading <= text
  {
    var lines := TemplateLines(ch);
    var first := ["# " + ch.title + "\n", "\n", SummaryHeading];
    assert lines == first + lines[3..];
    ConcatAppend(first, lines[3..]);
    assert Concat(first) == "# " + ch.title + "\n\n" + SummaryHeading by {
      assert first[1..] == ["\n", SummaryHeading] && first[1..][1..] == [SummaryHeading];
      assert Concat([SummaryHeading]) == SummaryHeading;
    }
    Concat(lines)
  }

  /** The template's line structure: heading, summary block, goal lines, fixed tail. */
  lemma {:induction false} TemplateShape(ch: Chapter)
    ensures var lines := TemplateLines(ch);
      var goals := GoalsOrDefault(ch.goals);
      && |lines| == 5 + |goals| + |TemplateTail|
      && lines[0] == "# " + ch.title + "\n"
      && lines[2] == SummaryHeading && lines[4] == GoalsHeading
      && lines[5..5 + |goals|] == Bullets(goals)
      && lines[5 + |goals|..] == TemplateTail
  {
    var lines := TemplateLines(ch);
    var goals := GoalsOrDefault(ch.goals);
    var head := ["# " + ch.title + "\n", "\n", SummaryHeading, SummaryLine(ch.summary), GoalsHeading];
    assert lines == head + Bullets(goals) + TemplateTail;
    MiddleOfFour(head, Bullets(goals), TemplateTail, []);
    assert head + Bullets(goals) + TemplateTail + [] == lines;
  }

  /**
    The summary line repeats a non-empty summary; it is the placeholder
    exactly when the summary is empty or is the placeholder text itself.
   */
  lemma {:induction false} TemplateSummaryLine(ch: Chapter)
    ensures ch.summary != [] ==> TemplateLines(ch)[3] == ch.summary + "\n\n"
    ensures TemplateLines(ch)[3] == SummaryPlaceholder + "\n\n" <==> ch.summary == [] || ch.summary == SummaryPlaceholder
  {
    var line := TemplateLines(ch)[3];
    if ch.summary != [] && line == SummaryPlaceholder + "\n\n" {
      assert ch.summary == line[..|line| - 2];
    }
  }

  /**
    One list item per goal, in order; the three default goals exactly
    when the chapter has no goals or has the defaults themselves.
   */
  lemma {:induction false} TemplateGoalLines(ch: Chapter)
    ensures var lines := TemplateLines(ch);
      && (ch.goals != [] ==> lines[5..5 + |ch.goals|] == Bullets(ch.goals))
      && (ch.goals == [] ==> lines[5..8] == Bullets(DefaultGoals))
      && ((|lines| == 5 + |DefaultGoals| + |TemplateTail| && lines[5..8] == Bullets(DefaultGoals))
            <==> ch.goals == [] || ch.goals == DefaultGoals)
  {
    TemplateShape(ch);
    var goals := GoalsOrDefault(ch.goals);
    BulletsInjective(goals, DefaultGoals);
  }
}
