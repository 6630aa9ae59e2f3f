/**
  Character classes and the string primitives of Python that the writing
  tools rely on: `str.strip()`, `str.split(sep)`, `re.split` on a
  one-character class, and maximal runs of a character class (what
  `re.findall(r"\w+")`, `str.split()` and `re.finditer(r"\s{2,}")` see).
 */
module Text {
  import opened Seqs

  /**
    The Unicode character classes the source takes from Python, left
    abstract: `word` is the regex class `\w`, `space` is `\s` (the same
    set `str.isspace`, `str.strip()` and `str.split()` use), `lower` is a
    one-character `str.lower`.
   */
  datatype CharClasses = CharClasses(word: char -> bool, space: char -> bool, lower: char -> char)

  /** The ASCII characters Python classifies as whitespace. */
  const AsciiSpaces: set<char> :=
    {'\t', '\n', '\U{0B}', '\U{0C}', '\r', '\U{1C}', '\U{1D}', '\U{1E}', '\U{1F}', ' '}

  predicate IsAsciiLetter(c: char) {
    'a' <= c <= 'z' || 'A' <= c <= 'Z'
  }

  predicate IsAsciiWord(c: char) {
    IsAsciiLetter(c) || '0' <= c <= '9' || c == '_'
  }

  function AsciiLower(c: char): char {
    if 'A' <= c <= 'Z' then (c as int + 32) as char else c
  }

  /**
    What the model assumes of the classes: on ASCII they agree with
    Python, lowercasing never turns a visible character into whitespace,
    and lowercasing twice is lowercasing once.
   */
  ghost predicate WellFormed(cc: CharClasses) {
    && (forall c: char :: c < '\U{80}' ==> (cc.space(c) <==> c in AsciiSpaces))
    && (forall c: char :: c < '\U{80}' ==> (cc.word(c) <==> IsAsciiWord(c)))
    && (forall c: char :: c < '\U{80}' ==> cc.lower(c) == AsciiLower(c))
    && (forall c: char :: cc.space(cc.lower(c)) ==> cc.space(c))
    && (forall c: char :: cc.lower(cc.lower(c)) == cc.lower(c))
  }

  /** Every character of `s` satisfies `space`. */
  predicate AllSpace(s: string, space: char -> bool) {
    forall k :: 0 <= k < |s| ==> space(s[k])
  }

  /** Neither end of `s` is whitespace. */
  predicate IsTrimmed(s: string, space: char -> bool) {
    s == [] || (!space(s[0]) && !space(s[|s| - 1]))
  }

  /** The number of whitespace characters `s` starts with. */
  function LeadingSpaces(s: string, space: char -> bool): (n: nat)
    ensures n <= |s|
    ensures forall k :: 0 <= k < n ==> space(s[k])
    ensures n == |s| || !space(s[n])
  {
    if s != [] && space(s[0]) then 1 + LeadingSpaces(s[1..], space) else 0
  }

  /** The number of whitespace characters `s` ends with. */
  function TrailingSpaces(s: string, space: char -> bool): (n: nat)
    ensures n <= |s|
    ensures forall k :: |s| - n <= k < |s| ==> space(s[k])
    ensures n == |s| || !space(s[|s| - n - 1])
  {
    if s != [] && space(s[|s| - 1]) then 1 + TrailingSpaces(s[..|s| - 1], space) else 0
  }

  /**
    Python's `s.strip()`: the slice of `s` left after removing whitespace
    from both ends. It is empty exactly when `s` is all whitespace.
   */
  function Strip(s: string, space: char -> bool): (r: string)
    ensures IsTrimmed(r, space)
    ensures r == [] <==> AllSpace(s, space)
    ensures var a := LeadingSpaces(s, space);
      && a + |r| <= |s|
      && r == s[a..a + |r|]
      && AllSpace(s[..a], space)
      && AllSpace(s[a + |r|..], space)
  {
    var a := LeadingSpaces(s, space);
    if a == |s| then
      assert s[..a] == s;
      []
    else
      var b := |s| - TrailingSpaces(s, space);
      assert a < b;
      assert AllSpace(s[b..], space);
      s[a..b]
  }

  /** Stripping only removes characters. */
  lemma {:induction false} StripMembers(s: string, space: char -> bool)
    ensures forall c :: c in Strip(s, space) ==> c in s
  {
    var a := LeadingSpaces(s, space);
    var r := Strip(s, space);
    forall c | c in r ensures c in s {
      var i :| 0 <= i < |r| && r[i] == c;
      assert s[a + i] == c;
    }
  }

  /** Stripping leaves a string without outer whitespace unchanged. */
  lemma {:induction false} StripTrimmed(s: string, space: char -> bool)
    requires IsTrimmed(s, space)
    ensures Strip(s, space) == s
  {
  }

  /**
    Python's `s.split(sep)`: the pieces between the leftmost,
    non-overlapping occurrences of `sep`. Joining them with `sep` gives
    `s` back, and no piece contains `sep`.
   */
  function SplitOn(s: string, sep: string): (r: seq<string>)
    requires |sep| > 0
    ensures |r| >= 1
    ensures r[0] <= s
    ensures Join(r, sep) == s
    ensures forall k :: 0 <= k < |r| ==> !Contains(r[k], sep)
    decreases |s|
  {
    if |s| < |sep| then
      NoRoomNoOccurrence(s, sep);
      [s]
    else if s[..|sep|] == sep then
      var rest := SplitOn(s[|sep|..], sep);
      assert !Contains([], sep);
      [[]] + rest
    else
      var rest := SplitOn(s[1..], sep);
      var first := [s[0]] + rest[0];
      PrependClean(s, rest[0], sep);
      JoinPrepend(s[0], rest, sep);
      assert s == [s[0]] + s[1..];
      [first] + rest[1..]
  }

  /**
    A piece read from the tail of `s` stays free of `sep` when the first
    character of `s` is put back, provided `sep` does not start `s`.
   */
  lemma {:induction false} PrependClean(s: string, piece: string, sep: string)
    requires s != [] && piece <= s[1..] && !Contains(piece, sep)
    requires !(|sep| <= |s| && s[..|sep|] == sep)
    ensures [s[0]] + piece <= s
    ensures !Contains([s[0]] + piece, sep)
  {
    var first := [s[0]] + piece;
    if |sep| <= |first| {
      assert first[..|sep|] == s[..|sep|];
    }
    assert first[1..] == piece;
  }

  /** Putting a character in front of the first piece puts it in front of the joined string. */
  lemma {:induction false} JoinPrepend(c: char, parts: seq<string>, sep: string)
    requires |parts| >= 1
    ensures Join([[c] + parts[0]] + parts[1..], sep) == [c] + Join(parts, sep)
  {
    var r := [[c] + parts[0]] + parts[1..];
    if |parts| > 1 {
      assert r[1..] == parts[1..];
      assert Join(r, sep) == r[0] + sep + Join(parts[1..], sep);
    }
  }

  /**
    `SplitOn` cuts at the leftmost occurrence: `sep` occurs nowhere before
    the end of the first piece, and occurs right there when there is more
    than one piece. With `SplitOnRest` this fixes every cut.
   */
  lemma {:induction false} SplitOnLeftmost(s: string, sep: string)
    requires |sep| > 0
    ensures var r := SplitOn(s, sep);
      && (forall i :: 0 <= i < |r[0]| ==> !OccursAt(s, sep, i))
      && (|r| > 1 ==> OccursAt(s, sep, |r[0]|))
    decreases |s|
  {
    var r := SplitOn(s, sep);
    if |s| >= |sep| && s[..|sep|] != sep {
      SplitOnLeftmost(s[1..], sep);
      var rest := SplitOn(s[1..], sep);
      assert r[0] == [s[0]] + rest[0];
      forall i | 0 < i < |r[0]| ensures !OccursAt(s, sep, i) {
        if OccursAt(s, sep, i) {
          assert s[1..][i - 1..i - 1 + |sep|] == s[i..i + |sep|];
          assert OccursAt(s[1..], sep, i - 1);
        }
      }
      if |r| > 1 {
        assert |rest| > 1;
        assert s[1..][|rest[0]|..|rest[0]| + |sep|] == s[|r[0]|..|r[0]| + |sep|];
      }
    }
  }

  /** After the first cut, the remaining pieces are the split of what follows the separator. */
  lemma {:induction false} SplitOnRest(s: string, sep: string)
    requires |sep| > 0
    ensures var r := SplitOn(s, sep);
      |r| > 1 ==> |r[0]| + |sep| <= |s| && r[1..] == SplitOn(s[|r[0]| + |sep|..], sep)
    decreases |s|
  {
    var r := SplitOn(s, sep);
    if |s| >= |sep| && s[..|sep|] == sep {
      assert r[1..] == SplitOn(s[|sep|..], sep);
    } else if |s| >= |sep| && |r| > 1 {
      SplitOnRest(s[1..], sep);
      var rest := SplitOn(s[1..], sep);
      assert r[0] == [s[0]] + rest[0];
      assert r[1..] == rest[1..];
      assert s[1..][|rest[0]| + |sep|..] == s[|r[0]| + |sep|..];
    }
  }

  /** A string shorter than `p` cannot contain it (unless `p` is empty). */
  lemma {:induction false} NoRoomNoOccurrence(s: string, p: string)
    requires |s| < |p|
    ensures !Contains(s, p)
    decreases |s|
  {
    if s != [] {
      NoRoomNoOccurrence(s[1..], p);
    }
  }

  /** `parts[0] + [seps[0]] + parts[1] + ... + [seps[n-1]] + parts[n]` */
  function Interleave(parts: seq<string>, seps: seq<char>): string
    requires |parts| == |seps| + 1
  {
    if seps == [] then parts[0] else parts[0] + [seps[0]] + Interleave(parts[1..], seps[1..])
  }

  /**
    `re.split` on a one-character class: the pieces between the characters
    that satisfy `isSep`. There is one more piece than separators, no piece
    holds a separator, and putting the separators back gives `s`.
   */
  function SplitBy(s: string, isSep: char -> bool): (r: seq<string>)
    ensures |r| == |Filter(s, isSep)| + 1
    ensures forall k :: 0 <= k < |r| ==> forall c :: c in r[k] ==> !isSep(c)
    ensures Interleave(r, Filter(s, isSep)) == s
  {
    if s == [] then [[]]
    else
      var rest := SplitBy(s[1..], isSep);
      assert s == [s[0]] + s[1..];
      if isSep(s[0]) then
        assert Filter(s, isSep) == [s[0]] + Filter(s[1..], isSep);
        InterleaveSeparator(s[0], rest, Filter(s[1..], isSep));
        [[]] + rest
      else
        assert Filter(s, isSep) == Filter(s[1..], isSep);
        InterleavePrepend(s[0], rest, Filter(s[1..], isSep));
        [[s[0]] + rest[0]] + rest[1..]
  }

  /** An empty first piece puts the first separator at the very front. */
  lemma {:induction false} InterleaveSeparator(c: char, parts: seq<string>, seps: seq<char>)
    requires |parts| == |seps| + 1
    ensures Interleave([[]] + parts, [c] + seps) == [c] + Interleave(parts, seps)
  {
    assert ([[]] + parts)[1..] == parts;
    assert ([c] + seps)[1..] == seps;
  }

  /** Putting a character in front of the first piece puts it in front of the interleaving. */
  lemma {:induction false} InterleavePrepend(c: char, parts: seq<string>, seps: seq<char>)
    requires |parts| == |seps| + 1
    ensures Interleave([[c] + parts[0]] + parts[1..], seps) == [c] + Interleave(parts, seps)
  {
    var r := [[c] + parts[0]] + parts[1..];
    assert r[0] == [c] + parts[0];
    if seps != [] {
      assert r[1..] == parts[1..];
      var tail := [seps[0]] + Interleave(parts[1..], seps[1..]);
      assert Interleave(r, seps) == ([c] + parts[0]) + tail;
      assert Interleave(parts, seps) == parts[0] + tail;
    }
  }

  /** A half-open interval `[start, end)` of positions in a string. */
  datatype Span = Span(start: nat, end: nat)

  /** Spans in `a` lie wholly before spans in `b`, with a gap between. */
  predicate Before(a: Span, b: Span) {
    a.end < b.start
  }

  /** `sp` is a maximal non-empty run of characters satisfying `p` in `s`. */
  predicate IsMaximalRun(s: string, p: char -> bool, sp: Span) {
    && sp.start < sp.end <= |s|
    && (forall k :: sp.start <= k < sp.end ==> p(s[k]))
    && (sp.start == 0 || !p(s[sp.start - 1]))
    && (sp.end == |s| || !p(s[sp.end]))
  }

  /** The first position at or after `i` whose character fails `p`. */
  function RunEnd(s: string, p: char -> bool, i: nat): (j: nat)
    requires i <= |s|
    ensures i <= j <= |s|
    ensures forall k :: i <= k < j ==> p(s[k])
    ensures j == |s| || !p(s[j])
    decreases |s| - i
  {
    if i < |s| && p(s[i]) then RunEnd(s, p, i + 1) else i
  }

  /** The maximal runs of `p` that start at or after `i`, left to right. */
  function RunsFrom(s: string, p: char -> bool, i: nat): (r: seq<Span>)
    requires i <= |s|
    requires i == 0 || !p(s[i - 1])
    ensures forall sp :: sp in r ==> IsMaximalRun(s, p, sp) && i <= sp.start
    ensures Ordered(r, Before)
    decreases |s| - i
  {
    if i == |s| then []
    else if !p(s[i]) then RunsFrom(s, p, i + 1)
    else
      var j := RunEnd(s, p, i);
      var rest := if j == |s| then [] else RunsFrom(s, p, j + 1);
      var r := [Span(i, j)] + rest;
      assert forall b :: 0 < b < |r| ==> r[b] == rest[b - 1];
      r
  }

  /** The maximal runs of characters satisfying `p` in `s`, left to right. */
  function Runs(s: string, p: char -> bool): (r: seq<Span>)
    ensures forall sp :: sp in r ==> IsMaximalRun(s, p, sp)
    ensures Ordered(r, Before)
  {
    RunsFrom(s, p, 0)
  }

  /** Every maximal run of `p` at or after `i` is found by the scan. */
  lemma {:induction false} RunsFromComplete(s: string, p: char -> bool, i: nat, sp: Span)
    requires i <= |s|
    requires i == 0 || !p(s[i - 1])
    requires IsMaximalRun(s, p, sp) && i <= sp.start
    ensures sp in RunsFrom(s, p, i)
    decreases |s| - i
  {
    if !p(s[i]) {
      RunsFromComplete(s, p, i + 1, sp);
    } else {
      var j := RunEnd(s, p, i);
      if sp.start == i {
        assert sp.end == j;
      } else {
        assert sp.start - 1 >= j;
        RunsFromComplete(s, p, j + 1, sp);
      }
    }
  }

  /** `Runs` finds exactly the maximal runs of `p`. */
  lemma {:induction false} RunsExact(s: string, p: char -> bool)
    ensures forall sp :: sp in Runs(s, p) <==> IsMaximalRun(s, p, sp)
  {
    forall sp | IsMaximalRun(s, p, sp) ensures sp in Runs(s, p) {
      RunsFromComplete(s, p, 0, sp);
    }
  }

  /** A scan from `i` finds nothing exactly when no character from `i` on satisfies `p`. */
  lemma {:induction false} RunsFromEmpty(s: string, p: char -> bool, i: nat)
    requires i <= |s|
    requires i == 0 || !p(s[i - 1])
    ensures RunsFrom(s, p, i) == [] <==> forall k :: i <= k < |s| ==> !p(s[k])
    decreases |s| - i
  {
    if i < |s| && !p(s[i]) {
      RunsFromEmpty(s, p, i + 1);
    }
  }

  /** There are no runs of `p` exactly when no character satisfies `p`. */
  lemma {:induction false} RunsEmpty(s: string, p: char -> bool)
    ensures Runs(s, p) == [] <==> forall k :: 0 <= k < |s| ==> !p(s[k])
  {
    RunsFromEmpty(s, p, 0);
  }

  /** Two neighbouring characters of `s` both satisfy `p`. */
  predicate HasAdjacent(s: string, p: char -> bool) {
    exists i :: 0 <= i < |s| - 1 && p(s[i]) && p(s[i + 1])
  }

  /** Two neighbouring characters satisfying `p` lie in a run of length at least two. */
  lemma {:induction false} RunsFromCoverPair(s: string, p: char -> bool, i: nat, m: nat)
    requires i <= m && m + 1 < |s|
    requires i == 0 || !p(s[i - 1])
    requires p(s[m]) && p(s[m + 1])
    ensures exists sp :: sp in RunsFrom(s, p, i) && sp.end - sp.start >= 2
    decreases |s| - i
  {
    if !p(s[i]) {
      RunsFromCoverPair(s, p, i + 1, m);
    } else {
      var j := RunEnd(s, p, i);
      var r := RunsFrom(s, p, i);
      if m < j {
        assert j != m + 1;
        assert r[0] == Span(i, j);
      } else {
        RunsFromCoverPair(s, p, j + 1, m);
        var sp :| sp in RunsFrom(s, p, j + 1) && sp.end - sp.start >= 2;
        assert sp in r;
      }
    }
  }

  /** The Markdown list item `- item`, one line. */
  function Bullet(item: string): string {
    "- " + item + "\n"
  }

  /**
    One list item per element, in order. Each line is `- `, then its item,
    then a line break, so the item can be read back from the line.
   */
  function Bullets(items: seq<string>): (r: seq<string>)
    ensures |r| == |items|
    ensures forall k :: 0 <= k < |r| ==> r[k] == Bullet(items[k]) && r[k][0] == '-'
    ensures forall k :: 0 <= k < |r| ==>
      && |r[k]| == |items[k]| + 3
      && r[k][..2] == "- " && r[k][|r[k]| - 1] == '\n'
      && r[k][2..|r[k]| - 1] == items[k]
  {
    seq(|items|, k requires 0 <= k < |items| => Bullet(items[k]))
  }

  /** The list items determine the list: different lists give different lines. */
  lemma {:induction false} BulletsInjective(a: seq<string>, b: seq<string>)
    ensures Bullets(a) == Bullets(b) ==> a == b
  {
    if Bullets(a) == Bullets(b) {
      forall k | 0 <= k < |a| ensures a[k] == b[k] {
        var line := Bullets(a)[k];
        assert line == Bullets(b)[k];
      }
    }
  }

  /** Every line of `Bullets` is a list item. */
  lemma {:induction false} BulletsAreItems(x: string, items: seq<string>)
    ensures x in Bullets(items) ==> x != [] && x[0] == '-'
  {
    var b := Bullets(items);
    if x in b {
      var k :| 0 <= k < |b| && b[k] == x;
    }
  }
}
