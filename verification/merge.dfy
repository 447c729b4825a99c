/**
 * The two-way merge that MergeSort uses to write its sorted halves back over
 * the caller's range with std::merge. The model is the usual two-pointer
 * implementation of std::merge: when the head of the second run is strictly
 * less than the head of the first, the second run's head goes next; otherwise
 * the first run's head goes next. Equal elements therefore leave the first run
 * first, which is the stability the C++ standard requires in [alg.merge] for
 * ascending runs. On runs that are not ascending the standard promises
 * nothing; the model gives that implementation's result.
 */
module Merging {

  predicate Sorted(s: seq<int>) {
    forall i, j :: 0 <= i < j < |s| ==> s[i] <= s[j]
  }

  /** The sequence std::merge writes for the runs `xs` and `ys`. */
  function Merge(xs: seq<int>, ys: seq<int>): (r: seq<int>)
    ensures |r| == |xs| + |ys|
    decreases |xs| + |ys|
  {
    if xs == [] then ys
    else if ys == [] then xs
    else if ys[0] < xs[0] then [ys[0]] + Merge(xs, ys[1..])
    else [xs[0]] + Merge(xs[1..], ys)
  }

  /** The merge writes every element of both runs exactly once. */
  lemma {:induction false} MergePermutes(xs: seq<int>, ys: seq<int>)
    ensures multiset(Merge(xs, ys)) == multiset(xs) + multiset(ys)
    decreases |xs| + |ys|
  {
    if xs != [] && ys != [] {
      if ys[0] < xs[0] {
        MergePermutes(xs, ys[1..]);
        assert ys == [ys[0]] + ys[1..];
      } else {
        MergePermutes(xs[1..], ys);
        assert xs == [xs[0]] + xs[1..];
      }
    }
  }

  function Constant(b: bool, n: nat): (o: seq<bool>)
    ensures |o| == n && forall k :: 0 <= k < n ==> o[k] == b
  {
    if n == 0 then [] else [b] + Constant(b, n - 1)
  }

  /**
   * Which run each output position of Merge(xs, ys) came from: true for the
   * first run, false for the second. It follows the same choices as Merge.
   */
  function MergeSources(xs: seq<int>, ys: seq<int>): (o: seq<bool>)
    ensures |o| == |xs| + |ys|
    decreases |xs| + |ys|
  {
    if xs == [] then Constant(false, |ys|)
    else if ys == [] then Constant(true, |xs|)
    else if ys[0] < xs[0] then [false] + MergeSources(xs, ys[1..])
    else [true] + MergeSources(xs[1..], ys)
  }

  /** The elements of `s` at the positions where `o` holds `b`, in order. */
  function Pick(s: seq<int>, o: seq<bool>, b: bool): (r: seq<int>)
    requires |s| == |o|
    ensures |r| <= |s|
    ensures forall e :: e in r ==> e in s
  {
    if s == [] then []
    else (if o[0] == b then [s[0]] else []) + Pick(s[1..], o[1..], b)
  }

  lemma {:induction false} PickUniform(s: seq<int>, b: bool)
    ensures Pick(s, Constant(b, |s|), b) == s
    ensures Pick(s, Constant(b, |s|), !b) == []
  {
    if s != [] {
      assert Constant(b, |s|)[1..] == Constant(b, |s[1..]|);
      PickUniform(s[1..], b);
    }
  }

  /**
   * Merge interleaves its runs: the positions taken from the first run spell
   * out exactly `xs`, those taken from the second exactly `ys`. Nothing is
   * lost, duplicated or reordered within a run.
   */
  lemma MergeInterleaves(xs: seq<int>, ys: seq<int>)
    ensures Pick(Merge(xs, ys), MergeSources(xs, ys), true) == xs
    ensures Pick(Merge(xs, ys), MergeSources(xs, ys), false) == ys
  {
    MergePicksRun(xs, ys, true);
    MergePicksRun(xs, ys, false);
  }

  lemma {:induction false} MergePicksRun(xs: seq<int>, ys: seq<int>, b: bool)
    ensures Pick(Merge(xs, ys), MergeSources(xs, ys), b) == if b then xs else ys
    decreases |xs| + |ys|
  {
    if xs == [] {
      PickUniform(ys, false);
    } else if ys == [] {
      PickUniform(xs, true);
    } else if ys[0] < xs[0] {
      MergePicksRun(xs, ys[1..], b);
      var r, o := Merge(xs, ys), MergeSources(xs, ys);
      assert r[1..] == Merge(xs, ys[1..]) && o[1..] == MergeSources(xs, ys[1..]);
      assert ys == [ys[0]] + ys[1..];
    } else {
      MergePicksRun(xs[1..], ys, b);
      var r, o := Merge(xs, ys), MergeSources(xs, ys);
      assert r[1..] == Merge(xs[1..], ys) && o[1..] == MergeSources(xs[1..], ys);
      assert xs == [xs[0]] + xs[1..];
    }
  }

  /** Each output element is an element of the run it is attributed to. */
  lemma {:induction false} MergeSourcesAttribute(xs: seq<int>, ys: seq<int>)
    ensures forall k :: 0 <= k < |xs| + |ys| ==>
      (MergeSources(xs, ys)[k] ==> Merge(xs, ys)[k] in xs) &&
      (!MergeSources(xs, ys)[k] ==> Merge(xs, ys)[k] in ys)
    decreases |xs| + |ys|
  {
    if xs != [] && ys != [] {
      if ys[0] < xs[0] {
        MergeSourcesAttribute(xs, ys[1..]);
        forall k | 1 <= k < |xs| + |ys| && !MergeSources(xs, ys)[k]
          ensures Merge(xs, ys)[k] in ys
        {
          assert Merge(xs, ys)[k] == Merge(xs, ys[1..])[k - 1];
          assert Merge(xs, ys)[k] in ys[1..];
        }
      } else {
        MergeSourcesAttribute(xs[1..], ys);
        forall k | 1 <= k < |xs| + |ys| && MergeSources(xs, ys)[k]
          ensures Merge(xs, ys)[k] in xs
        {
          assert Merge(xs, ys)[k] == Merge(xs[1..], ys)[k - 1];
          assert Merge(xs, ys)[k] in xs[1..];
        }
      }
    }
  }

  /**
   * Stability of [alg.merge] on ascending runs: an element of the second run
   * is written before an element of the first run only when it is strictly
   * smaller. So of two equal elements from different runs, the one from the
   * first run is written first.
   */
  lemma MergeStable(xs: seq<int>, ys: seq<int>)
    requires Sorted(xs) && Sorted(ys)
    ensures forall k, k' ::
      0 <= k < k' < |xs| + |ys| && !MergeSources(xs, ys)[k] && MergeSources(xs, ys)[k'] ==>
        Merge(xs, ys)[k] < Merge(xs, ys)[k']
  {
    forall k, k' | 0 <= k < k' < |xs| + |ys| && !MergeSources(xs, ys)[k] && MergeSources(xs, ys)[k']
      ensures Merge(xs, ys)[k] < Merge(xs, ys)[k']
    {
      MergeStableAt(xs, ys, k, k');
    }
  }

  lemma {:induction false} MergeStableAt(xs: seq<int>, ys: seq<int>, k: nat, k': nat)
    requires Sorted(xs) && Sorted(ys)
    requires k < k' < |xs| + |ys|
    requires !MergeSources(xs, ys)[k] && MergeSources(xs, ys)[k']
    ensures Merge(xs, ys)[k] < Merge(xs, ys)[k']
    decreases k
  {
    if xs != [] && ys != [] {
      if ys[0] < xs[0] {
        if k == 0 {
          MergeSourcesAttribute(xs, ys);
          assert Merge(xs, ys)[k'] in xs;
        } else {
          assert Merge(xs, ys) == [ys[0]] + Merge(xs, ys[1..]);
          assert MergeSources(xs, ys) == [false] + MergeSources(xs, ys[1..]);
          MergeStableAt(xs, ys[1..], k - 1, k' - 1);
        }
      } else {
        assert Merge(xs, ys) == [xs[0]] + Merge(xs[1..], ys);
        assert MergeSources(xs, ys) == [true] + MergeSources(xs[1..], ys);
        MergeStableAt(xs[1..], ys, k - 1, k' - 1);
      }
    }
  }

  lemma ConsSorted(h: int, t: seq<int>)
    requires Sorted(t)
    requires forall e :: e in t ==> h <= e
    ensures Sorted([h] + t)
  {
    forall i, j | 0 <= i < j < |t| + 1 ensures ([h] + t)[i] <= ([h] + t)[j] {
      if i == 0 {
        assert ([h] + t)[j] in t;
      }
    }
  }

  /** Merging two ascending runs yields an ascending run. */
  lemma {:induction false} MergeSorted(xs: seq<int>, ys: seq<int>)
    requires Sorted(xs) && Sorted(ys)
    ensures Sorted(Merge(xs, ys))
    decreases |xs| + |ys|
  {
    if xs != [] && ys != [] {
      if ys[0] < xs[0] {
        var t := Merge(xs, ys[1..]);
        MergeSorted(xs, ys[1..]);
        MergePermutes(xs, ys[1..]);
        forall e | e in t ensures ys[0] <= e {
          assert e in multiset(t);
          if e in multiset(xs) {
            assert e in xs;
          } else {
            assert e in ys[1..];
          }
        }
        ConsSorted(ys[0], t);
      } else {
        var t := Merge(xs[1..], ys);
        MergeSorted(xs[1..], ys);
        MergePermutes(xs[1..], ys);
        forall e | e in t ensures xs[0] <= e {
          assert e in multiset(t);
          if e in multiset(ys) {
            assert e in ys;
          } else {
            assert e in xs[1..];
          }
        }
        ConsSorted(xs[0], t);
      }
    }
  }

  /** A subsequence of an ascending sequence is ascending. */
  lemma {:induction false} PickSorted(s: seq<int>, o: seq<bool>, b: bool)
    requires |s| == |o| && Sorted(s)
    ensures Sorted(Pick(s, o, b))
  {
    if s != [] {
      PickSorted(s[1..], o[1..], b);
      if o[0] == b {
        var t := Pick(s[1..], o[1..], b);
        forall e | e in t ensures s[0] <= e {
          assert e in s[1..];
        }
        ConsSorted(s[0], t);
      }
    }
  }

  /**
   * The converse of MergeSorted: if the merge comes out ascending, both runs
   * were ascending. The merge cannot repair a run that was out of order.
   */
  lemma MergeSortedOnlyFromSortedRuns(xs: seq<int>, ys: seq<int>)
    requires Sorted(Merge(xs, ys))
    ensures Sorted(xs) && Sorted(ys)
  {
    MergeInterleaves(xs, ys);
    PickSorted(Merge(xs, ys), MergeSources(xs, ys), true);
    PickSorted(Merge(xs, ys), MergeSources(xs, ys), false);
  }

  /** Merging the two halves of an ascending sequence gives it back unchanged. */
  lemma {:induction false} MergeOfSortedConcat(xs: seq<int>, ys: seq<int>)
    requires Sorted(xs + ys)
    ensures Merge(xs, ys) == xs + ys
    decreases |xs|
  {
    if xs != [] && ys != [] {
      assert (xs + ys)[0] <= (xs + ys)[|xs|];
      assert (xs + ys)[1..] == xs[1..] + ys;
      MergeOfSortedConcat(xs[1..], ys);
    } else if ys == [] {
      assert xs + ys == xs;
    }
  }

  /** The merge writes the first run's head next unless the second run's head is strictly smaller. */
  lemma MergeTakesFirst(xs: seq<int>, ys: seq<int>)
    requires xs != [] && (ys == [] || !(ys[0] < xs[0]))
    ensures Merge(xs, ys) == [xs[0]] + Merge(xs[1..], ys)
  {
    if ys == [] {
      assert Merge(xs[1..], ys) == xs[1..];
      assert xs == [xs[0]] + xs[1..];
    }
  }

  /** The merge writes the second run's head next when it is strictly smaller, or the first run is used up. */
  lemma MergeTakesSecond(xs: seq<int>, ys: seq<int>)
    requires ys != [] && (xs == [] || ys[0] < xs[0])
    ensures Merge(xs, ys) == [ys[0]] + Merge(xs, ys[1..])
  {
    if xs == [] {
      assert Merge(xs, ys[1..]) == ys[1..];
      assert ys == [ys[0]] + ys[1..];
    }
  }

  lemma AppendShift(w: seq<int>, h: int, r: seq<int>)
    ensures w + ([h] + r) == (w + [h]) + r
  {
  }

  /** One step of the merge loop when the first run's head is written next. */
  lemma MergeStepFirst(written: seq<int>, xs: seq<int>, ys: seq<int>, i: nat, j: nat)
    requires i < |xs| && j <= |ys| && (j == |ys| || !(ys[j] < xs[i]))
    requires written + Merge(xs[i..], ys[j..]) == Merge(xs, ys)
    ensures (written + [xs[i]]) + Merge(xs[i + 1..], ys[j..]) == Merge(xs, ys)
  {
    var a, b := xs[i..], ys[j..];
    assert a != [] && a[0] == xs[i] && a[1..] == xs[i + 1..] && (b == [] || !(b[0] < a[0])) by {
      assert j < |ys| ==> b[0] == ys[j];
    }
    MergeTakesFirst(a, b);
    AppendShift(written, xs[i], Merge(xs[i + 1..], b));
  }

  /** One step of the merge loop when the second run's head is written next. */
  lemma MergeStepSecond(written: seq<int>, xs: seq<int>, ys: seq<int>, i: nat, j: nat)
    requires i <= |xs| && j < |ys| && (i == |xs| || ys[j] < xs[i])
    requires written + Merge(xs[i..], ys[j..]) == Merge(xs, ys)
    ensures (written + [ys[j]]) + Merge(xs[i..], ys[j + 1..]) == Merge(xs, ys)
  {
    var a, b := xs[i..], ys[j..];
    assert b != [] && b[0] == ys[j] && b[1..] == ys[j + 1..] && (a == [] || b[0] < a[0]) by {
      assert i < |xs| ==> a[0] == xs[i];
    }
    MergeTakesSecond(a, b);
    AppendShift(written, ys[j], Merge(a, ys[j + 1..]));
  }

  /**
   * std::merge(elements.begin(), mid, mid, elements.end(), range_begin): merges
   * src[..mid] with src[mid..] into dst[lo..hi], walking both runs with one
   * index each. Only the positions of dst[lo..hi] are written.
   */
  method MergeInto(src: array<int>, mid: nat, dst: array<int>, lo: nat, hi: nat)
    requires src != dst
    requires mid <= src.Length && lo + src.Length == hi <= dst.Length
    modifies dst
    ensures dst[lo..hi] == Merge(old(src[..mid]), old(src[mid..]))
    ensures forall i :: 0 <= i < lo || hi <= i < dst.Length ==> dst[i] == old(dst[i])
  {
    ghost var xs, ys := src[..mid], src[mid..];
    var n := src.Length;
    // i walks the first run src[..mid], j the second run src[mid..];
    // `written` is what has gone to dst[lo..lo + i + j] so far
    var i, j := 0, 0;
    ghost var written: seq<int> := [];
    assert xs[0..] == xs && ys[0..] == ys;
    while i < mid || mid + j < n
      invariant i <= mid && mid + j <= n && |written| == i + j
      invariant written + Merge(xs[i..], ys[j..]) == Merge(xs, ys)
      invariant forall k :: 0 <= k < |written| ==> dst[lo + k] == written[k]
      invariant forall k :: 0 <= k < lo || hi <= k < dst.Length ==> dst[k] == old(dst[k])
      decreases (mid - i) + (n - mid - j)
    {
      if i < mid && (mid + j == n || !(src[mid + j] < src[i])) {
        MergeStepFirst(written, xs, ys, i, j);
        dst[lo + i + j] := src[i];
        written, i := written + [xs[i]], i + 1;
      } else {
        MergeStepSecond(written, xs, ys, i, j);
        dst[lo + i + j] := src[mid + j];
        written, j := written + [ys[j]], j + 1;
      }
    }
    assert dst[lo..hi] == written;
  }
}
