/**
 * The N50 score of a list of contigs (`n50` in assemble.py): sort the contig
 * lengths in descending order, then walk a running sum until it reaches half
 * of the total length; the score is the length of the contig reached.
 * `fraction < length / 2` compares an integer with a half-integer, which is
 * `2 * fraction < length` over the integers.
 */
module N50 {
  import opened Python

  function Lengths(contigs: seq<string>): (r: seq<nat>)
    ensures |r| == |contigs|
    ensures forall i :: 0 <= i < |contigs| ==> r[i] == |contigs[i]|
  {
    seq(|contigs|, i requires 0 <= i < |contigs| => |contigs[i]|)
  }

  ghost predicate Descending(s: seq<nat>)
  {
    forall i, j :: 0 <= i < j < |s| ==> s[i] >= s[j]
  }

  /** Insertion of x into a descending list, before the first element smaller than x. */
  function Insert(x: nat, s: seq<nat>): (r: seq<nat>)
    ensures |r| == |s| + 1
  {
    if s == [] then [x]
    else if x >= s[0] then [x] + s
    else [s[0]] + Insert(x, s[1..])
  }

  /** `sorted(lengths, reverse=True)`; only the lengths are kept, which is all `n50` reads of the contigs. */
  function SortDesc(s: seq<nat>): (r: seq<nat>)
    ensures |r| == |s|
  {
    if s == [] then [] else Insert(s[0], SortDesc(s[1..]))
  }

  /** A descending list stays descending under a head no smaller than its elements. */
  lemma {:induction false} DescendingCons(y: nat, r: seq<nat>)
    requires Descending(r) && forall j :: 0 <= j < |r| ==> r[j] <= y
    ensures Descending([y] + r)
  {
    var r2 := [y] + r;
    forall i, j | 0 <= i < j < |r2|
      ensures r2[i] >= r2[j]
    {
      if i > 0 {
        assert r2[i] == r[i - 1] && r2[j] == r[j - 1];
      }
    }
  }

  /** Every element of a list whose multiset is that of s plus x is bounded by a bound of both. */
  lemma {:induction false} BoundedElements(r: seq<nat>, s: seq<nat>, x: nat, y: nat)
    requires multiset(r) == multiset(s) + multiset{x}
    requires x <= y && forall j :: 0 <= j < |s| ==> s[j] <= y
    ensures forall j :: 0 <= j < |r| ==> r[j] <= y
  {
    forall j | 0 <= j < |r|
      ensures r[j] <= y
    {
      assert r[j] in multiset(r);
      if r[j] != x {
        assert r[j] in s;
      }
    }
  }

  lemma {:induction false} InsertSorted(x: nat, s: seq<nat>)
    requires Descending(s)
    ensures Descending(Insert(x, s)) && multiset(Insert(x, s)) == multiset(s) + multiset{x}
  {
    if s == [] {
    } else if x >= s[0] {
      DescendingCons(x, s);
    } else {
      var rest := s[1..];
      assert s == [s[0]] + rest;
      InsertSorted(x, rest);
      BoundedElements(Insert(x, rest), rest, x, s[0]);
      DescendingCons(s[0], Insert(x, rest));
    }
  }

  /** The sort yields a descending permutation of its input. */
  lemma {:induction false} SortDescSorted(s: seq<nat>)
    ensures Descending(SortDesc(s)) && multiset(SortDesc(s)) == multiset(s)
  {
    if s != [] {
      SortDescSorted(s[1..]);
      InsertSorted(s[0], SortDesc(s[1..]));
      assert s == [s[0]] + s[1..];
    }
  }

  /** The sum of the elements of s that are at least t. */
  function SumAtLeast(s: seq<nat>, t: nat): nat
  {
    if s == [] then 0 else (if s[0] >= t then s[0] else 0) + SumAtLeast(s[1..], t)
  }

  /** The sum of all elements. */
  function Sum(s: seq<nat>): nat
  {
    SumAtLeast(s, 0)
  }

  /** The running sum of the loop once it has added s[j]. */
  function SumThrough(s: seq<nat>, j: nat): nat
    requires j < |s|
  {
    Sum(s[..j + 1])
  }

  /**
   * Position i of a descending list s is where the running sum first
   * reaches half of the total.
   */
  ghost predicate HalfwayAt(s: seq<nat>, i: int)
  {
    && 0 <= i < |s|
    && 2 * SumThrough(s, i) >= Sum(s)
    && forall j :: 0 <= j < i ==> 2 * SumThrough(s, j) < Sum(s)
  }

  /** `n50(contigs)`. */
  method N50(contigs: seq<string>) returns (score: nat)
    ensures contigs == [] ==> score == 0
    ensures contigs != [] ==> exists i :: 0 <= i < |contigs| && score == |contigs[i]|
    ensures contigs != [] ==> exists i :: HalfwayAt(SortDesc(Lengths(contigs)), i) && score == SortDesc(Lengths(contigs))[i]
    ensures IsN50(Lengths(contigs), score)
  {
    if |contigs| == 0 {
      return 0;
    }
    var sorted := SortDesc(Lengths(contigs));
    var length := Sum(sorted);
    var fraction := 0;
    var index := -1;
    assert sorted[..|sorted|] == sorted;
    while 2 * fraction < length
      invariant -1 <= index < |sorted|
      invariant fraction == Sum(sorted[..index + 1])
      invariant forall j :: 0 <= j < index ==> 2 * SumThrough(sorted, j) < length
      decreases |sorted| - index
    {
      assert index + 1 < |sorted|;
      index := index + 1;
      SumSnoc(sorted, index);
      fraction := fraction + sorted[index];
    }
    score := Index(sorted, index);
    LoopExit(contigs, index);
  }

  /** What the loop's exit state gives: the score is a contig length, the halfway point, and the N50 in its usual form. */
  lemma {:induction false} LoopExit(contigs: seq<string>, index: int)
    requires contigs != []
    requires -1 <= index < |contigs|
    requires 2 * Sum(SortDesc(Lengths(contigs))[..index + 1]) >= Sum(SortDesc(Lengths(contigs)))
    requires forall j :: 0 <= j < index ==> 2 * SumThrough(SortDesc(Lengths(contigs)), j) < Sum(SortDesc(Lengths(contigs)))
    ensures var score := Index(SortDesc(Lengths(contigs)), index);
      && (exists i :: 0 <= i < |contigs| && score == |contigs[i]|)
      && (exists i :: HalfwayAt(SortDesc(Lengths(contigs)), i) && score == SortDesc(Lengths(contigs))[i])
      && IsN50(Lengths(contigs), score)
  {
    var lengths := Lengths(contigs);
    var sorted := SortDesc(lengths);
    SortDescSorted(lengths);
    var i := if index == -1 then 0 else index;
    HalfwayScore(sorted, index);
    assert HalfwayAt(sorted, i) && Index(sorted, index) == sorted[i];
    assert sorted[i] in multiset(sorted);
    assert sorted[i] in lengths;
    HalfwayIsN50(lengths, i);
  }

  /** The length at the halfway position of the sorted lengths is the N50. */
  lemma {:induction false} HalfwayIsN50(lengths: seq<nat>, i: nat)
    requires HalfwayAt(SortDesc(lengths), i)
    ensures IsN50(lengths, SortDesc(lengths)[i])
  {
    ClassicN50AtLeast(lengths, i);
    if Sum(lengths) > 0 {
      ClassicN50Above(lengths, i);
    } else {
      ClassicN50Zero(lengths, i);
    }
  }

  /**
   * The N50 in its usual form: the contigs at least as long as the score
   * hold at least half of the total length and the strictly longer ones
   * hold less than half (a zero total gives a zero score).
   */
  ghost predicate IsN50(lengths: seq<nat>, score: nat)
  {
    && 2 * SumAtLeast(lengths, score) >= Sum(lengths)
    && (Sum(lengths) > 0 ==> 2 * SumAtLeast(lengths, score + 1) < Sum(lengths))
    && (Sum(lengths) == 0 ==> score == 0)
  }

  // ---------------------------------------------------------------------
  // Lemmas
  // ---------------------------------------------------------------------

  lemma {:induction false} SumAtLeastAppend(a: seq<nat>, b: seq<nat>, t: nat)
    ensures SumAtLeast(a + b, t) == SumAtLeast(a, t) + SumAtLeast(b, t)
  {
    if a == [] {
      assert a + b == b;
    } else {
      assert (a + b)[1..] == a[1..] + b;
      SumAtLeastAppend(a[1..], b, t);
    }
  }

  lemma {:induction false} SumSnoc(s: seq<nat>, j: nat)
    requires j < |s|
    ensures Sum(s[..j + 1]) == Sum(s[..j]) + s[j]
  {
    assert s[..j + 1] == s[..j] + [s[j]];
    SumAtLeastAppend(s[..j], [s[j]], 0);
  }

  /** Inserting x adds x to the sums whose threshold it meets. */
  lemma {:induction false} SumAtLeastInsert(x: nat, s: seq<nat>, t: nat)
    ensures SumAtLeast(Insert(x, s), t) == SumAtLeast(s, t) + (if x >= t then x else 0)
  {
    if s != [] && x < s[0] {
      SumAtLeastInsert(x, s[1..], t);
    }
  }

  /** Sorting does not change which lengths are summed. */
  lemma {:induction false} SumAtLeastSorted(s: seq<nat>, t: nat)
    ensures SumAtLeast(SortDesc(s), t) == SumAtLeast(s, t)
  {
    if s != [] {
      SumAtLeastSorted(s[1..], t);
      SumAtLeastInsert(s[0], SortDesc(s[1..]), t);
    }
  }

  /** Every element of s is at least t: the thresholded sum is the whole sum. */
  lemma {:induction false} AllAtLeast(s: seq<nat>, t: nat)
    requires forall j :: 0 <= j < |s| ==> s[j] >= t
    ensures SumAtLeast(s, t) == Sum(s)
  {
    if s != [] {
      AllAtLeast(s[1..], t);
    }
  }

  /** No element of s exceeds t: nothing is above t. */
  lemma {:induction false} NoneAbove(s: seq<nat>, t: nat)
    requires forall j :: 0 <= j < |s| ==> s[j] <= t
    ensures SumAtLeast(s, t + 1) == 0
  {
    if s != [] {
      NoneAbove(s[1..], t);
    }
  }

  lemma {:induction false} SumAtLeastBounded(s: seq<nat>, t: nat)
    ensures SumAtLeast(s, t) <= Sum(s)
  {
    if s != [] {
      SumAtLeastBounded(s[1..], t);
    }
  }

  /** A list whose sum is zero holds only zeros. */
  lemma {:induction false} ZeroSum(s: seq<nat>, j: nat)
    requires Sum(s) == 0 && j < |s|
    ensures s[j] == 0
  {
    if j > 0 {
      ZeroSum(s[1..], j - 1);
    }
  }

  /** Where the loop stops, and why index -1 (the last element in Python) also gives the halfway point. */
  lemma {:induction false} HalfwayScore(s: seq<nat>, index: int)
    requires Descending(s) && |s| > 0 && -1 <= index < |s|
    requires 2 * Sum(s[..index + 1]) >= Sum(s)
    requires forall j :: 0 <= j < index ==> 2 * SumThrough(s, j) < Sum(s)
    ensures index == -1 ==> HalfwayAt(s, 0) && s[|s| - 1] == s[0]
    ensures index >= 0 ==> HalfwayAt(s, index)
  {
    if index == -1 {
      assert s[..0] == [];
      ZeroSum(s, 0);
      ZeroSum(s, |s| - 1);
      SumSnoc(s, 0);
    }
  }

  /** The elements at least as large as the halfway point hold at least half of the total. */
  lemma {:induction false} HalfwayAtLeastHalf(s: seq<nat>, i: nat)
    requires Descending(s) && HalfwayAt(s, i)
    ensures 2 * SumAtLeast(s, s[i]) >= Sum(s)
  {
    assert s == s[..i + 1] + s[i + 1..];
    SumAtLeastAppend(s[..i + 1], s[i + 1..], s[i]);
    AllAtLeast(s[..i + 1], s[i]);
  }

  /** The elements strictly larger than the halfway point hold less than half of a positive total. */
  lemma {:induction false} HalfwayAboveLessThanHalf(s: seq<nat>, i: nat)
    requires Descending(s) && HalfwayAt(s, i) && Sum(s) > 0
    ensures 2 * SumAtLeast(s, s[i] + 1) < Sum(s)
  {
    assert s == s[..i] + s[i..];
    SumAtLeastAppend(s[..i], s[i..], s[i] + 1);
    NoneAbove(s[i..], s[i]);
    SumAtLeastBounded(s[..i], s[i] + 1);
    if i > 0 {
      assert SumThrough(s, i - 1) == Sum(s[..i]) by { assert s[..i] == s[..(i - 1) + 1]; }
    } else {
      assert s[..i] == [];
    }
  }

  /**
   * The halfway point of the sorted lengths is the N50 in its usual form:
   * the contigs at least as long as it hold at least half of the total ...
   */
  lemma {:induction false} ClassicN50AtLeast(lengths: seq<nat>, i: nat)
    requires HalfwayAt(SortDesc(lengths), i)
    ensures 2 * SumAtLeast(lengths, SortDesc(lengths)[i]) >= Sum(lengths)
  {
    var s := SortDesc(lengths);
    SortDescSorted(lengths);
    SumAtLeastSorted(lengths, 0);
    SumAtLeastSorted(lengths, s[i]);
    HalfwayAtLeastHalf(s, i);
  }

  /** ... and those strictly longer hold less than half of a positive total. */
  lemma {:induction false} ClassicN50Above(lengths: seq<nat>, i: nat)
    requires HalfwayAt(SortDesc(lengths), i) && Sum(lengths) > 0
    ensures 2 * SumAtLeast(lengths, SortDesc(lengths)[i] + 1) < Sum(lengths)
  {
    var s := SortDesc(lengths);
    SortDescSorted(lengths);
    var t: nat := s[i] + 1;
    SortedTotal(lengths);
    HalfwayAboveLessThanHalf(s, i);
    SumAtLeastSorted(lengths, t);
    assert 2 * SumAtLeast(lengths, t) < Sum(lengths);
  }

  lemma {:induction false} SortedTotal(lengths: seq<nat>)
    ensures Sum(SortDesc(lengths)) == Sum(lengths)
  {
    SumAtLeastSorted(lengths, 0);
  }

  /** With a zero total the halfway point is a zero length. */
  lemma {:induction false} ClassicN50Zero(lengths: seq<nat>, i: nat)
    requires HalfwayAt(SortDesc(lengths), i) && Sum(lengths) == 0
    ensures SortDesc(lengths)[i] == 0
  {
    SumAtLeastSorted(lengths, 0);
    ZeroSum(SortDesc(lengths), i);
  }

  /** The usual form pins the score down: two lengths that both satisfy it are equal. */
  lemma {:induction false} N50Unique(lengths: seq<nat>, a: nat, b: nat)
    requires IsN50(lengths, a) && IsN50(lengths, b)
    ensures a == b
  {
    if Sum(lengths) == 0 {
    } else if a < b {
      SumAtLeastMonotone(lengths, a + 1, b);
    } else if b < a {
      SumAtLeastMonotone(lengths, b + 1, a);
    }
  }

  lemma {:induction false} SumAtLeastMonotone(s: seq<nat>, t: nat, u: nat)
    requires t <= u
    ensures SumAtLeast(s, u) <= SumAtLeast(s, t)
  {
    if s != [] {
      SumAtLeastMonotone(s[1..], t, u);
    }
  }
}
