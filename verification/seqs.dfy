/**
  Generic sequence functions the text model is built from: an
  order-preserving filter (a list comprehension with an `if`), string
  concatenation and joining (`"".join`, `sep.join`), substring search
  (`p in s`) and subsequences.
 */
module Seqs {

  /** The elements of `s` that satisfy `f`, in their original order. */
  function Filter<T(!new)>(s: seq<T>, f: T -> bool): (r: seq<T>)
    ensures |r| <= |s|
    ensures forall x :: x in r <==> x in s && f(x)
  {
    if s == [] then [] else (if f(s[0]) then [s[0]] else []) + Filter(s[1..], f)
  }

  /** Filtering distributes over concatenation, so it keeps relative order. */
  lemma {:induction false} FilterAppend<T(!new)>(a: seq<T>, b: seq<T>, f: T -> bool)
    ensures Filter(a + b, f) == Filter(a, f) + Filter(b, f)
  {
    if a == [] {
      assert a + b == b;
    } else {
      assert (a + b)[1..] == a[1..] + b;
      FilterAppend(a[1..], b, f);
    }
  }

  /**
    Filtering keeps every copy of a value that satisfies `f` and no copy
    of one that does not.
   */
  lemma {:induction false} FilterMultiplicity<T(!new)>(s: seq<T>, f: T -> bool)
    ensures forall x :: multiset(Filter(s, f))[x] == if f(x) then multiset(s)[x] else 0
  {
    if s != [] {
      FilterMultiplicity(s[1..], f);
      var head := if f(s[0]) then [s[0]] else [];
      assert Filter(s, f) == head + Filter(s[1..], f);
      assert multiset(Filter(s, f)) == multiset(head) + multiset(Filter(s[1..], f));
      assert s == [s[0]] + s[1..];
      assert multiset(s) == multiset([s[0]]) + multiset(s[1..]);
    }
  }

  /** Every pair of elements, taken in sequence order, is related by `lt`. */
  predicate Ordered<T>(s: seq<T>, lt: (T, T) -> bool) {
    forall a, b :: 0 <= a < b < |s| ==> lt(s[a], s[b])
  }

  /** A filtered sequence is in the same order as the one it came from. */
  lemma {:induction false} FilterOrdered<T(!new)>(s: seq<T>, f: T -> bool, lt: (T, T) -> bool)
    requires Ordered(s, lt)
    ensures Ordered(Filter(s, f), lt)
  {
    if s != [] {
      var tail := Filter(s[1..], f);
      assert Ordered(s[1..], lt) by {
        forall a, b | 0 <= a < b < |s[1..]| ensures lt(s[1..][a], s[1..][b]) {
          assert s[1..][a] == s[a + 1] && s[1..][b] == s[b + 1];
        }
      }
      FilterOrdered(s[1..], f, lt);
      if f(s[0]) {
        var r := [s[0]] + tail;
        forall a, b | 0 <= a < b < |r| ensures lt(r[a], r[b]) {
          if a == 0 {
            assert r[b] in s[1..];
            var m :| 0 <= m < |s[1..]| && s[1..][m] == r[b];
            assert s[m + 1] == r[b];
          } else {
            assert r[a] == tail[a - 1] && r[b] == tail[b - 1];
          }
        }
      }
    }
  }

  /** `"".join(parts)`: empty exactly when every part is. */
  function Concat(parts: seq<string>): (r: string)
    ensures r == [] <==> forall k :: 0 <= k < |parts| ==> parts[k] == []
  {
    if parts == [] then [] else parts[0] + Concat(parts[1..])
  }

  /** Concatenation of lines distributes over appending lists of lines. */
  lemma {:induction false} ConcatAppend(a: seq<string>, b: seq<string>)
    ensures Concat(a + b) == Concat(a) + Concat(b)
  {
    if a == [] {
      assert a + b == b;
    } else {
      assert (a + b)[1..] == a[1..] + b;
      ConcatAppend(a[1..], b);
    }
  }

  /** `sep.join(parts)` */
  function Join(parts: seq<string>, sep: string): string {
    if parts == [] then []
    else if |parts| == 1 then parts[0]
    else parts[0] + sep + Join(parts[1..], sep)
  }

  /** `p` occurs in `s` starting at index `i`. */
  predicate OccursAt(s: string, p: string, i: int) {
    0 <= i && i + |p| <= |s| && s[i..i + |p|] == p
  }

  /**
    Python's `p in s`, scanning from the left. The empty string is in
    every string, and nothing longer than `s` is in it.
   */
  predicate Contains(s: string, p: string)
    ensures p == [] ==> Contains(s, p)
    ensures Contains(s, p) ==> |p| <= |s|
    decreases |s|
  {
    (|p| <= |s| && s[..|p|] == p) || (s != [] && Contains(s[1..], p))
  }

  /** The scan finds `p` exactly when `p` occurs somewhere in `s`. */
  lemma {:induction false} ContainsOccurrence(s: string, p: string)
    ensures Contains(s, p) <==> exists i :: OccursAt(s, p, i)
    decreases |s|
  {
    if |p| <= |s| && s[..|p|] == p {
      assert OccursAt(s, p, 0);
    } else if s == [] {
      assert forall i :: !OccursAt(s, p, i);
    } else {
      ContainsOccurrence(s[1..], p);
      if Contains(s[1..], p) {
        var i :| OccursAt(s[1..], p, i);
        assert s[1..][i..i + |p|] == s[i + 1..i + 1 + |p|];
        assert OccursAt(s, p, i + 1);
      } else {
        forall i ensures !OccursAt(s, p, i) {
          if i >= 1 {
            ShiftOccurrence(s, p, i);
          }
        }
      }
    }
  }

  /** An occurrence after the first position is an occurrence in the tail, one position earlier. */
  lemma {:induction false} ShiftOccurrence(s: string, p: string, i: int)
    requires s != [] && i >= 1
    ensures OccursAt(s, p, i) <==> OccursAt(s[1..], p, i - 1)
  {
    if i + |p| <= |s| {
      assert s[1..][i - 1..i - 1 + |p|] == s[i..i + |p|];
    }
  }

  /** `a` can be obtained from `b` by deleting elements. */
  predicate IsSubsequence<T(==)>(a: seq<T>, b: seq<T>)
    decreases |b|
  {
    a == [] || (b != [] && ((a[0] == b[0] && IsSubsequence(a[1..], b[1..])) || IsSubsequence(a, b[1..])))
  }

  /** No value appears twice. */
  predicate NoDuplicates<T(==)>(s: seq<T>) {
    forall i, j :: 0 <= i < j < |s| ==> s[i] != s[j]
  }

  /** A filtered sequence is a subsequence of the one it came from. */
  lemma {:induction false} FilterIsSubsequence<T(!new)>(s: seq<T>, f: T -> bool)
    ensures IsSubsequence(Filter(s, f), s)
  {
    if s != [] {
      FilterIsSubsequence(s[1..], f);
      if f(s[0]) {
        assert ([s[0]] + Filter(s[1..], f))[1..] == Filter(s[1..], f);
      } else {
        assert Filter(s, f) == Filter(s[1..], f);
      }
    }
  }

  /** Everything in a subsequence is in the sequence. */
  lemma {:induction false} SubsequenceMembers<T>(a: seq<T>, b: seq<T>)
    requires IsSubsequence(a, b)
    ensures forall x :: x in a ==> x in b
    decreases |b|
  {
    if a != [] {
      if a[0] == b[0] && IsSubsequence(a[1..], b[1..]) {
        SubsequenceMembers(a[1..], b[1..]);
        assert a == [a[0]] + a[1..];
      } else {
        SubsequenceMembers(a, b[1..]);
      }
    }
  }

  /** A sequence with no members is empty. */
  lemma {:induction false} NoMembersEmpty<T>(a: seq<T>)
    ensures (forall x :: x !in a) ==> a == []
  {
    if a != [] {
      assert a[0] in a;
    }
  }

  /** A subsequence of a sequence without duplicates has none either. */
  lemma {:induction false} SubsequenceNoDuplicates<T>(a: seq<T>, b: seq<T>)
    requires IsSubsequence(a, b) && NoDuplicates(b)
    ensures NoDuplicates(a)
    decreases |b|
  {
    if a != [] {
      assert NoDuplicates(b[1..]) by {
        forall i, j | 0 <= i < j < |b[1..]| ensures b[1..][i] != b[1..][j] {
          assert b[1..][i] == b[i + 1] && b[1..][j] == b[j + 1];
        }
      }
      if a[0] == b[0] && IsSubsequence(a[1..], b[1..]) {
        SubsequenceNoDuplicates(a[1..], b[1..]);
        SubsequenceMembers(a[1..], b[1..]);
        forall i, j | 0 <= i < j < |a| ensures a[i] != a[j] {
          if i == 0 {
            assert a[j] == a[1..][j - 1];
            assert a[j] in b[1..];
          } else {
            assert a[i] == a[1..][i - 1] && a[j] == a[1..][j - 1];
          }
        }
      } else {
        SubsequenceNoDuplicates(a, b[1..]);
      }
    }
  }

  /** A slice of a slice is a slice of the original. */
  lemma {:induction false} SliceOfSlice<T>(s: seq<T>, i: nat, j: nat, k: nat, l: nat)
    requires i <= j <= |s| && k <= l <= j - i
    ensures s[i..j][k..l] == s[i + k..i + l]
  {
    forall t | 0 <= t < l - k ensures s[i..j][k..l][t] == s[i + k..i + l][t] {
      assert s[i..j][k..l][t] == s[i + k + t];
    }
  }

  /** The second of four concatenated sequences sits right after the first. */
  lemma {:induction false} MiddleOfFour<T>(a: seq<T>, b: seq<T>, c: seq<T>, d: seq<T>)
    ensures (a + b + c + d)[|a|..|a| + |b|] == b
  {
    assert a + b + c + d == a + (b + (c + d));
  }

  /** Membership in four concatenated sequences. */
  lemma {:induction false} InConcat4<T>(x: T, a: seq<T>, b: seq<T>, c: seq<T>, d: seq<T>)
    ensures x in a + b + c + d <==> x in a || x in b || x in c || x in d
  {
  }

  /** A slice lying wholly in the second part of a concatenation is a slice of that part. */
  lemma {:induction false} SliceAfterPrefix<T>(a: seq<T>, b: seq<T>, i: nat, j: nat)
    requires |a| <= i <= j <= |a| + |b|
    ensures (a + b)[i..j] == b[i - |a|..j - |a|]
  {
    assert (a + b)[|a|..] == b;
    SliceOfSlice(a + b, |a|, |a| + |b|, i - |a|, j - |a|);
  }

  /** The lists `f(x)` of the elements, one after the other. */
  function FlatMap<T, U>(items: seq<T>, f: T -> seq<U>): seq<U> {
    if items == [] then [] else f(items[0]) + FlatMap(items[1..], f)
  }

  /** Flattening distributes over appending lists of elements. */
  lemma {:induction false} FlatMapAppend<T, U>(a: seq<T>, b: seq<T>, f: T -> seq<U>)
    ensures FlatMap(a + b, f) == FlatMap(a, f) + FlatMap(b, f)
  {
    if a == [] {
      assert a + b == b;
    } else {
      assert (a + b)[1..] == a[1..] + b;
      FlatMapAppend(a[1..], b, f);
    }
  }

  /** When every element gives `n` values, the flattened list has `n` per element. */
  lemma {:induction false} FlatMapLength<T, U>(items: seq<T>, f: T -> seq<U>, n: nat)
    requires forall x :: |f(x)| == n
    ensures |FlatMap(items, f)| == n * |items|
  {
    if items != [] {
      FlatMapLength(items[1..], f, n);
      assert n * |items| == n + n * (|items| - 1);
    }
  }

  /** A single element flattens to its own list. */
  lemma {:induction false} FlatMapSingle<T, U>(x: T, f: T -> seq<U>)
    ensures FlatMap([x], f) == f(x)
  {
    assert [x][1..] == [];
  }

  /** The list of element `i` sits right after the lists of the elements before it. */
  lemma {:induction false} FlatMapAt<T, U>(items: seq<T>, f: T -> seq<U>, i: nat)
    requires i < |items|
    ensures var before := |FlatMap(items[..i], f)|;
      && before + |f(items[i])| <= |FlatMap(items, f)|
      && FlatMap(items, f)[before..before + |f(items[i])|] == f(items[i])
  {
    var a := items[..i];
    var c := items[i + 1..];
    assert items == a + [items[i]] + c;
    FlatMapAppend(a + [items[i]], c, f);
    FlatMapAppend(a, [items[i]], f);
    FlatMapSingle(items[i], f);
    MiddleOfFour(FlatMap(a, f), f(items[i]), FlatMap(c, f), []);
    assert FlatMap(a, f) + f(items[i]) + FlatMap(c, f) + [] == FlatMap(items, f);
  }

  /** Joining a header line and two runs of lines joins the header with the first run, then the second. */
  lemma {:induction false} ConcatAfterHeader(h: string, a: seq<string>, b: seq<string>)
    ensures Concat([h] + (a + b)) == Concat([h] + a) + Concat(b)
  {
    assert [h] + (a + b) == ([h] + a) + b;
    ConcatAppend([h] + a, b);
  }
}
