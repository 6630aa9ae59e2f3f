/**
  The outline builder (src/persian_writer/outline.py): a numbered list of
  chapter placeholders sharing one word target, and its Markdown
  rendering.
 */
module Outline {
  import opened Seqs
  import opened Decimal
  import Book

  /** One planned chapter. */
  datatype OutlineItem = OutlineItem(title: string, summary: string, wordTarget: int)

  /** The fewest words any planned chapter is given. */
  const MinChapterWords: int := 1500

  const ChapterWord: string := "فصل "
  const SummaryOpening: string := "گسترش خط روایی در بخش "
  const SummaryAudience: string := " با تاکید بر مخاطب "
  const GeneralAudience: string := "عمومی"

  /**
    `max(target // max(sections, 1), 1500)`. The divisor is at least 1, so
    Dafny's division agrees with Python's floor division. The result is
    the floor quotient when that exceeds 1500, and 1500 otherwise.
   */
  function ChapterTarget(targetWords: int, sections: int): (t: int)
    ensures t >= MinChapterWords
    ensures var d := if sections < 1 then 1 else sections;
      && (t > MinChapterWords ==> d * t <= targetWords < d * (t + 1))
      && (t == MinChapterWords ==> targetWords < d * (MinChapterWords + 1))
  {
    var d := if sections < 1 then 1 else sections;
    var q := targetWords / d;
    if q > MinChapterWords then q else MinChapterWords
  }

  /** `project.audience or "عمومی"`. */
  function AudienceOrGeneral(audience: string): string {
    if audience != [] then audience else GeneralAudience
  }

  /** The summary of planned chapter `idx`. */
  function ItemSummary(idx: nat, audience: string): string {
    SummaryOpening + NatToString(idx) + SummaryAudience + AudienceOrGeneral(audience) + "."
  }

  /** Planned chapter `idx` (counting from 1). */
  function Item(idx: nat, audience: string, target: int): OutlineItem {
    OutlineItem(ChapterWord + NatToString(idx), ItemSummary(idx, audience), target)
  }

  /** The items for chapters `from` up to `count`, built by the loop of `build_outline`. */
  function ItemsFrom(from: nat, count: int, audience: string, target: int): (items: seq<OutlineItem>)
    requires from >= 1
    decreases count - from + 1
    ensures |items| == if count < from then 0 else count - from + 1
    ensures forall i :: 0 <= i < |items| ==> items[i] == Item(from + i, audience, target)
  {
    if count < from then [] else [Item(from, audience, target)] + ItemsFrom(from + 1, count, audience, target)
  }

  /** `build_outline`: one item per major section, all with the same word target. */
  function BuildOutline(project: Book.BookProject, majorSections: int): (items: seq<OutlineItem>)
    ensures |items| == if majorSections < 0 then 0 else majorSections
    ensures forall i :: 0 <= i < |items| ==>
      && items[i].title == ChapterWord + NatToString(i + 1)
      && items[i].summary == ItemSummary(i + 1, project.audience)
      && items[i].wordTarget == ChapterTarget(project.targetLengthWords, majorSections)
  {
    ItemsFrom(1, majorSections, project.audience, ChapterTarget(project.targetLengthWords, majorSections))
  }

  /** Item titles are all different, and each gives back its position. */
  lemma {:induction false} OutlineTitlesDistinct(project: Book.BookProject, majorSections: int)
    ensures var items := BuildOutline(project, majorSections);
      forall i, j :: 0 <= i < j < |items| ==> items[i].title != items[j].title
  {
    var items := BuildOutline(project, majorSections);
    forall i, j | 0 <= i < j < |items| ensures items[i].title != items[j].title {
      if items[i].title == items[j].title {
        assert NatToString(i + 1) == items[i].title[|ChapterWord|..];
        assert NatToString(j + 1) == items[j].title[|ChapterWord|..];
        NatToStringInjective(i + 1, j + 1);
      }
    }
  }

  /** A summary names the project's audience, or the general audience when none is set. */
  lemma {:induction false} SummaryNamesAudience(idx: nat, audience: string)
    ensures var s := ItemSummary(idx, audience);
      var tail := if audience != [] then audience else GeneralAudience;
      s[|s| - |tail| - 1..] == tail + "."
  {
    var s := ItemSummary(idx, audience);
    var tail := AudienceOrGeneral(audience);
    assert s == (SummaryOpening + NatToString(idx) + SummaryAudience) + (tail + ".");
  }

  const OutlineHeader: string := "## طرح کلی پیشنهادی\n"
  const TitlePrefix: string := "### "
  const SummaryLabel: string := "- خلاصه: "
  const TargetLabel: string := "- هدف واژگانی: "

  /**
    The three lines one item contributes: the title, the summary and the
    word target, each behind its label and readable back from its line;
    the last line also closes the item with a blank line.
   */
  function ItemLines(item: OutlineItem): (lines: seq<string>)
    ensures |lines| == 3
    ensures |lines[0]| == |TitlePrefix| + |item.title| + 1
    ensures |lines[1]| == |SummaryLabel| + |item.summary| + 1
    ensures |lines[2]| == |TargetLabel| + |IntToString(item.wordTarget)| + 2
    ensures TitlePrefix <= lines[0] && lines[0][|TitlePrefix|..|lines[0]| - 1] == item.title
    ensures SummaryLabel <= lines[1] && lines[1][|SummaryLabel|..|lines[1]| - 1] == item.summary
    ensures TargetLabel <= lines[2] && lines[2][|TargetLabel|..|lines[2]| - 2] == IntToString(item.wordTarget)
    ensures lines[2][|lines[2]| - 2..] == "\n\n"
  {
    [ TitlePrefix + item.title + "\n",
      SummaryLabel + item.summary + "\n",
      TargetLabel + IntToString(item.wordTarget) + "\n\n" ]
  }

  /** The lines of all items, in item order. */
  function ItemsLines(items: seq<OutlineItem>): (lines: seq<string>)
    ensures |lines| == 3 * |items|
  {
    FlatMapLength(items, ItemLines, 3);
    FlatMap(items, ItemLines)
  }

  /** Lines `3i` to `3i + 2` are item `i`'s title, summary and word-target lines. */
  lemma {:induction false} ItemsLinesAt(items: seq<OutlineItem>, i: nat)
    requires i < |items|
    ensures ItemsLines(items)[3 * i..3 * i + 3] == ItemLines(items[i])
  {
    FlatMapAt(items, ItemLines, i);
    ItemsLinesLength(items[..i]);
  }

  /** Every item contributes three lines. */
  lemma {:induction false} ItemsLinesLength(items: seq<OutlineItem>)
    ensures |FlatMap(items, ItemLines)| == 3 * |items|
  {
    FlatMapLength(items, ItemLines, 3);
  }

  /** `format_outline`: the header, then three lines per item. */
  function FormatOutline(items: seq<OutlineItem>): (text: string)
    ensures OutlineHeader <= text
    ensures items == [] ==> text == OutlineHeader
  {
    var lines := [OutlineHeader] + ItemsLines(items);
    assert Concat(lines) == OutlineHeader + Concat(lines[1..]);
    assert lines[1..] == ItemsLines(items);
    Concat(lines)
  }

  /** Appending an item to the outline appends its three lines to the text. */
  lemma {:induction false} FormatOutlineAppend(items: seq<OutlineItem>, item: OutlineItem)
    ensures FormatOutline(items + [item]) == FormatOutline(items) + Concat(ItemLines(item))
  {
    ItemsLinesAppend(items, [item]);
    FlatMapSingle(item, ItemLines);
    ConcatAfterHeader(OutlineHeader, ItemsLines(items), ItemLines(item));
  }

  /** The lines of two item lists, one after the other. */
  lemma {:induction false} ItemsLinesAppend(a: seq<OutlineItem>, b: seq<OutlineItem>)
    ensures ItemsLines(a + b) == ItemsLines(a) + ItemsLines(b)
  {
    FlatMapAppend(a, b, ItemLines);
  }
}
