/** Two ways of naming a byte of a list of strings: by flat position, or by (entry, offset). */
module Positions {
  import opened Prelude

  function PrefixSum(sizes: seq<nat>, k: nat): nat
    requires k <= |sizes|
  {
    if k == 0 then 0 else PrefixSum(sizes, k - 1) + sizes[k - 1]
  }

  function Total(sizes: seq<nat>): nat { PrefixSum(sizes, |sizes|) }

  /** Offset off of entry k is the byte at flat position pos. */
  ghost predicate IsAt(sizes: seq<nat>, pos: nat, k: nat, off: nat)
  {
    k < |sizes| && off < sizes[k] && PrefixSum(sizes, k) + off == pos
  }

  /** The entry and offset that hold flat position pos. */
  function Locate(sizes: seq<nat>, pos: nat): Option<(nat, nat)>
  {
    if sizes == [] then None
    else if pos < sizes[0] then Some((0, pos))
    else match Locate(sizes[1..], pos - sizes[0])
      case None => None
      case Some((k, off)) => Some((k + 1, off))
  }

  function SizesOf<T>(ss: seq<seq<T>>): (r: seq<nat>)
  {
    seq(|ss|, k requires 0 <= k < |ss| => |ss[k]|)
  }

  lemma {:induction false} PrefixSumMonotone(sizes: seq<nat>, j: nat, k: nat)
    requires j <= k <= |sizes|
    ensures PrefixSum(sizes, j) <= PrefixSum(sizes, k)
    ensures j < k ==> PrefixSum(sizes, j) + sizes[j] <= PrefixSum(sizes, k)
    decreases k - j
  {
    if j < k {
      assert PrefixSum(sizes, j + 1) == PrefixSum(sizes, j) + sizes[j];
      PrefixSumMonotone(sizes, j + 1, k);
    }
  }

  lemma {:induction false} PrefixSumBounded(sizes: seq<nat>, k: nat, m: nat)
    requires k <= |sizes|
    requires forall i :: 0 <= i < |sizes| ==> sizes[i] <= m
    ensures PrefixSum(sizes, k) <= k * m
  {
    if k > 0 {
      PrefixSumBounded(sizes, k - 1, m);
      assert k * m == (k - 1) * m + m;
    }
  }

  /** Equal prefixes have equal sums. */
  lemma {:induction false} PrefixSumLocal(a: seq<nat>, b: seq<nat>, k: nat)
    requires k <= |a| && k <= |b|
    requires forall i :: 0 <= i < k ==> a[i] == b[i]
    ensures PrefixSum(a, k) == PrefixSum(b, k)
  {
    if k > 0 { PrefixSumLocal(a, b, k - 1); }
  }

  lemma {:induction false} PrefixSumTail(sizes: seq<nat>, k: nat)
    requires 0 < k <= |sizes|
    ensures PrefixSum(sizes, k) == sizes[0] + PrefixSum(sizes[1..], k - 1)
  {
    if k > 1 { PrefixSumTail(sizes, k - 1); }
  }

  /** A flat position names at most one byte of one entry, whatever zero-sized entries lie between. */
  lemma IsAtUnique(sizes: seq<nat>, pos: nat, k: nat, off: nat, k': nat, off': nat)
    requires IsAt(sizes, pos, k, off) && IsAt(sizes, pos, k', off')
    ensures k == k' && off == off'
  {
    if k < k' {
      PrefixSumMonotone(sizes, k, k');
    } else if k' < k {
      PrefixSumMonotone(sizes, k', k);
    }
  }

  /** Locate is defined exactly below the total, and finds the byte. */
  lemma {:induction false} LocateCorrect(sizes: seq<nat>, pos: nat)
    ensures Locate(sizes, pos).Some? <==> pos < Total(sizes)
    ensures var r := Locate(sizes, pos); r.Some? ==> IsAt(sizes, pos, r.value.0, r.value.1)
  {
    if sizes != [] {
      PrefixSumTail(sizes, |sizes|);
      if pos >= sizes[0] {
        LocateCorrect(sizes[1..], pos - sizes[0]);
        var r := Locate(sizes[1..], pos - sizes[0]);
        if r.Some? { PrefixSumTail(sizes, r.value.0 + 1); }
      } else {
        assert PrefixSum(sizes, 0) == 0;
      }
    }
  }

  /** The index is a bijection between {(k, off) | k < count, off < size(k)} and [0, total):
      each direction undoes the other. */
  lemma PositionIndexBijection(sizes: seq<nat>, pos: nat, k: nat, off: nat)
    ensures k < |sizes| && off < sizes[k] ==>
              PrefixSum(sizes, k) + off < Total(sizes) && Locate(sizes, PrefixSum(sizes, k) + off) == Some((k, off))
    ensures pos < Total(sizes) ==>
              exists k', off' :: Locate(sizes, pos) == Some((k', off')) && k' < |sizes| && off' < sizes[k']
                                 && PrefixSum(sizes, k') + off' == pos
  {
    if k < |sizes| && off < sizes[k] {
      var p := PrefixSum(sizes, k) + off;
      PrefixSumMonotone(sizes, k, |sizes|);
      LocateCorrect(sizes, p);
      var r := Locate(sizes, p).value;
      IsAtUnique(sizes, p, k, off, r.0, r.1);
    }
    if pos < Total(sizes) {
      LocateCorrect(sizes, pos);
      var r := Locate(sizes, pos).value;
      assert Locate(sizes, pos) == Some((r.0, r.1));
    }
  }

  /** Sizes padded with zeros from place n on, as the unused slots of a ring are, have the same sums. */
  ghost predicate Padded(slots: seq<nat>, n: nat)
  {
    n <= |slots| && forall i :: n <= i < |slots| ==> slots[i] == 0
  }

  lemma {:induction false} PaddedSums(slots: seq<nat>, n: nat, k: nat)
    requires Padded(slots, n) && k <= |slots|
    ensures PrefixSum(slots, k) == PrefixSum(slots[..n], Min(k, n)) <= Total(slots[..n])
  {
    PrefixSumLocal(slots, slots[..n], Min(k, n));
    PrefixSumMonotone(slots[..n], Min(k, n), n);
    if k > n { PaddedSums(slots, n, k - 1); }
  }

  /** The place at which the running sum over all slots passes a position is an entry, and holds it. */
  lemma CrossingPlace(slots: seq<nat>, n: nat, pos: nat, k: nat)
    requires Padded(slots, n) && k < |slots| && PrefixSum(slots, k) <= pos < PrefixSum(slots, k + 1)
    ensures k < n && pos < Total(slots[..n])
    ensures slots[k] == PrefixSum(slots, k + 1) - PrefixSum(slots, k)
    ensures Locate(slots[..n], pos) == Some((k, pos - PrefixSum(slots, k)))
  {
    PaddedSums(slots, n, k);
    PaddedSums(slots, n, k + 1);
    PositionIndexBijection(slots[..n], pos, k, pos - PrefixSum(slots, k));
  }

  /** What lies before entry k, entry k itself and what follows it, in the flat string. */
  lemma {:induction false} FlatSplit<T>(ss: seq<seq<T>>, k: nat)
    requires k <= |ss|
    ensures Flat(ss) == Flat(ss[..k]) + Flat(ss[k..])
    ensures |Flat(ss[..k])| == PrefixSum(SizesOf(ss), k)
    ensures |Flat(ss)| == Total(SizesOf(ss))
  {
    FlatConcat(ss[..k], ss[k..]);
    assert ss[..k] + ss[k..] == ss;
    FlatLength(ss);
    FlatLength(ss[..k]);
    PrefixSumLocal(SizesOf(ss), SizesOf(ss[..k]), k);
  }

  lemma {:induction false} FlatLength<T>(ss: seq<seq<T>>)
    ensures |Flat(ss)| == Total(SizesOf(ss))
  {
    if ss != [] {
      FlatLength(ss[1..]);
      PrefixSumTail(SizesOf(ss), |ss|);
      assert SizesOf(ss)[1..] == SizesOf(ss[1..]);
    }
  }

  lemma FlatParts<T>(ss: seq<seq<T>>, k: nat)
    requires k < |ss|
    ensures Flat(ss) == Flat(ss[..k]) + (ss[k] + Flat(ss[k + 1..]))
    ensures |Flat(ss[..k])| == PrefixSum(SizesOf(ss), k)
  {
    FlatSplit(ss, k);
    assert ss[k..][1..] == ss[k + 1..] && ss[k..][0] == ss[k];
  }

  /** Entry k from offset off to its end is a slice of the flat string. */
  lemma FlatSlice<T>(ss: seq<seq<T>>, k: nat, off: nat, n: nat)
    requires k < |ss| && off + n <= |ss[k]|
    ensures var p := PrefixSum(SizesOf(ss), k) + off;
            p + n <= |Flat(ss)| && Flat(ss)[p..p + n] == ss[k][off..off + n]
  {
    hide Flat, PrefixSum, SizesOf;
    FlatParts(ss, k);
    SliceMiddle(Flat(ss), Flat(ss[..k]), ss[k], Flat(ss[k + 1..]), off, n);
  }

  lemma TakeOfSlice<T>(s: seq<T>, off: nat, n: nat, m: nat)
    requires m <= n && off + n <= |s|
    ensures s[off..off + n][..m] == s[off..off + m]
  {
  }

  lemma SliceMiddle<T>(whole: seq<T>, a: seq<T>, b: seq<T>, c: seq<T>, off: nat, n: nat)
    requires whole == a + (b + c) && off + n <= |b|
    ensures |a| + off + n <= |whole| && whole[|a| + off..|a| + off + n] == b[off..off + n]
  {
  }

  /** The byte found through the index is the byte of the flat string. */
  lemma LookupAgreesWithConcatenation<T>(ss: seq<seq<T>>, pos: nat)
    ensures Locate(SizesOf(ss), pos) == None <==> pos >= |Flat(ss)|
    ensures forall k, off :: Locate(SizesOf(ss), pos) == Some((k, off)) ==>
              k < |ss| && off < |ss[k]| && pos < |Flat(ss)| && Flat(ss)[pos] == ss[k][off]
  {
    FlatLength(ss);
    LocateCorrect(SizesOf(ss), pos);
    var r := Locate(SizesOf(ss), pos);
    if r.Some? {
      FlatSlice(ss, r.value.0, r.value.1, 1);
      assert Flat(ss)[pos..pos + 1][0] == ss[r.value.0][r.value.1..r.value.1 + 1][0];
    }
  }
}
