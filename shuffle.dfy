/**
 Model of `shuffle` and `gaussian_shuffle` from src/logic/helper.ts: a
 Fisher–Yates shuffle of a copy of the input array.

 The random source is a parameter: `samples[k]` is the number the k-th pass of
 the loop draws (`Math.random()` for `shuffle`, `gaussian()` for
 `gaussian_shuffle`), taken as an exact real.
 */
module Shuffle {

  /** `Math.floor(sample * currentIndex)`: the position a pass swaps with. */
  function RandomIndex(sample: real, currentIndex: nat): (ri: int)
    ensures 0.0 <= sample ==> 0 <= ri
    ensures sample <= 1.0 ==> ri <= currentIndex
    ensures 0.0 <= sample < 1.0 && currentIndex > 0 ==> ri < currentIndex
    ensures sample == 1.0 ==> ri == currentIndex
  {
    ScaledBounds(sample, currentIndex);
    (sample * currentIndex as real).Floor
  }

  /** Where `sample * n` lies for a sample in `[0, 1]`. */
  lemma ScaledBounds(sample: real, n: nat)
    ensures 0.0 <= sample ==> 0.0 <= sample * n as real
    ensures sample <= 1.0 ==> sample * n as real <= n as real
    ensures sample < 1.0 && n > 0 ==> sample * n as real < n as real
    ensures sample == 1.0 ==> sample * n as real == n as real
  {
    if 0.0 <= sample {
      ScaleNonnegative(sample, n);
    }
    if sample <= 1.0 {
      ScaleNonnegative(1.0 - sample, n);
      assert n as real - sample * n as real == (1.0 - sample) * n as real;
    }
  }

  /** A non-negative real times a natural number is non-negative, and positive when both are. */
  lemma {:induction false} ScaleNonnegative(c: real, n: nat)
    requires 0.0 <= c
    ensures 0.0 <= c * n as real
    ensures 0.0 < c && n > 0 ==> 0.0 < c * n as real
  {
    if n > 0 {
      ScaleNonnegative(c, n - 1);
      assert c * n as real == c * (n - 1) as real + c;
    }
  }

  /** Every sample lies in `[0, 1)`, the range of `Math.random()`. */
  predicate InUnitInterval(samples: seq<real>) {
    forall k :: 0 <= k < |samples| ==> 0.0 <= samples[k] < 1.0
  }

  /** `[arr[i], arr[j]] = [arr[j], arr[i]]` on positions inside the array. */
  function Swap<T>(s: seq<T>, i: nat, j: nat): (r: seq<T>)
    requires i < |s| && j < |s|
    ensures |r| == |s| && r[i] == s[j] && r[j] == s[i]
    ensures forall k :: 0 <= k < |s| && k != i && k != j ==> r[k] == s[k]
    ensures multiset(r) == multiset(s)
  {
    s[i := s[j]][j := s[i]]
  }

  /**
   Reference definition of the shuffle loop. With `n == |samples|` passes still
   to run, the first sample picks `RandomIndex(samples[0], n)`, which is swapped
   with position `n - 1`; the remaining samples shuffle the front `n - 1`
   positions.
   */
  function Shuffled<T>(s: seq<T>, samples: seq<real>): (r: seq<T>)
    requires |samples| <= |s| && InUnitInterval(samples)
    ensures |r| == |s|
    decreases |samples|
  {
    if samples == [] then s
    else
      var n := |samples|;
      Shuffled(Swap(s, n - 1, RandomIndex(samples[0], n)), samples[1..])
  }

  /**
   The shuffle is a permutation of its input, and it leaves alone the
   positions at or after the number of passes.
   */
  lemma {:induction false} ShuffledPermutes<T>(s: seq<T>, samples: seq<real>)
    requires |samples| <= |s| && InUnitInterval(samples)
    ensures multiset(Shuffled(s, samples)) == multiset(s)
    ensures Shuffled(s, samples)[|samples|..] == s[|samples|..]
    decreases |samples|
  {
    if samples != [] {
      var n := |samples|;
      var ri := RandomIndex(samples[0], n);
      ShuffledStep(s, samples, n, ri);
      var t := Swap(s, n - 1, ri);
      var r := Shuffled(t, samples[1..]);
      ShuffledPermutes(t, samples[1..]);
      assert r[n..] == s[n..] by {
        assert r[n..] == r[n - 1..][1..];
        assert t[n..] == t[n - 1..][1..];
        assert t[n..] == s[n..] by {
          assert t == s[n - 1 := s[ri]][ri := s[n - 1]];
        }
      }
    }
  }

  /** One pass of the loop: swap the last position still to shuffle, then shuffle the rest. */
  lemma ShuffledStep<T>(s: seq<T>, samples: seq<real>, n: nat, ri: nat)
    requires |samples| <= |s| && InUnitInterval(samples)
    requires n == |samples| > 0 && ri == RandomIndex(samples[0], n)
    ensures ri < n && InUnitInterval(samples[1..])
    ensures Shuffled(s, samples) == Shuffled(Swap(s, n - 1, ri), samples[1..])
  {
  }

  /**
   `shuffle(array)`: copy the array, then for `currentIndex` from its length
   down to 1 swap position `currentIndex - 1` with a drawn position below
   `currentIndex`. `random` holds the draws still to come: one sample is drawn
   per element, and the input array is only read.
   */
  method Shuffle<T>(a: array<T>, samples: seq<real>) returns (arr: array<T>)
    requires |samples| == a.Length && InUnitInterval(samples)
    ensures fresh(arr)
    ensures arr[..] == Shuffled(a[..], samples)
  {
    var currentIndex := a.Length;
    arr := new T[a.Length](i requires 0 <= i < a.Length reads a => a[i]);
    var random := samples;
    ghost var shuffled := Shuffled(a[..], samples);
    assert arr[..] == a[..];
    while currentIndex > 0
      invariant currentIndex == |random| <= arr.Length
      invariant InUnitInterval(random)
      invariant Shuffled(arr[..], random) == shuffled
    {
      var randomIndex := RandomIndex(random[0], currentIndex);
      ShuffledStep(arr[..], random, currentIndex, randomIndex);
      ghost var before := arr[..];
      currentIndex := currentIndex - 1;
      arr[currentIndex], arr[randomIndex] := arr[randomIndex], arr[currentIndex];
      assert arr[..] == before[currentIndex := before[randomIndex]][randomIndex := before[currentIndex]];
      random := random[1..];
    }
  }

  /**
   `gaussian_shuffle(array)`: the same loop with samples from `gaussian()`.
   Here `gaussian()` is taken to resample when its value is 1 or more, so its
   samples lie in `[0, 1)` like those of `Math.random()`.
   */
  method GaussianShuffle<T>(a: array<T>, samples: seq<real>) returns (arr: array<T>)
    requires |samples| == a.Length && InUnitInterval(samples)
    ensures fresh(arr)
    ensures arr[..] == Shuffled(a[..], samples)
  {
    arr := Shuffle(a, samples);
  }

  /** The first pass fixes the last position: it holds the element the first sample picked. */
  lemma ShuffledLast<T>(s: seq<T>, samples: seq<real>)
    requires |samples| == |s| > 0 && InUnitInterval(samples)
    ensures Shuffled(s, samples)[|s| - 1] == s[RandomIndex(samples[0], |s|)]
  {
    var n := |s|;
    var ri := RandomIndex(samples[0], n);
    ShuffledStep(s, samples, n, ri);
    var t := Swap(s, n - 1, ri);
    var r := Shuffled(t, samples[1..]);
    ShuffledPermutes(t, samples[1..]);
    assert r[n - 1] == r[n - 1..][0] == t[n - 1..][0];
  }

  /** When every pass draws its own position, nothing moves. */
  lemma {:induction false} ShuffledIdentity<T>(s: seq<T>, samples: seq<real>)
    requires |samples| <= |s| && InUnitInterval(samples)
    requires forall k :: 0 <= k < |samples| ==> RandomIndex(samples[k], |samples| - k) == |samples| - k - 1
    ensures Shuffled(s, samples) == s
    decreases |samples|
  {
    if samples != [] {
      var n := |samples|;
      assert RandomIndex(samples[0], n) == n - 1;
      assert Swap(s, n - 1, n - 1) == s;
      forall k | 0 <= k < n - 1
        ensures RandomIndex(samples[1..][k], n - 1 - k) == n - 1 - k - 1
      {
        assert samples[1..][k] == samples[k + 1];
      }
      ShuffledIdentity(s, samples[1..]);
    }
  }

  /** A JavaScript array slot: `undefined` (read past the end) or a value. */
  datatype Slot<T> = Undefined | Defined(value: T)

  /** `arr[i]` in JavaScript: the slot inside the array, `undefined` past the end. */
  function JsRead<T>(arr: seq<Slot<T>>, i: nat): (v: Slot<T>)
    ensures i < |arr| ==> v == arr[i]
    ensures |arr| <= i ==> v == Undefined
  {
    if i < |arr| then arr[i] else Undefined
  }

  /** `arr[i] = v` in JavaScript for `i <= arr.length`: writing at the end grows the array. */
  function JsWrite<T>(arr: seq<Slot<T>>, i: nat, v: Slot<T>): (r: seq<Slot<T>>)
    requires i <= |arr|
    ensures |r| == if i < |arr| then |arr| else |arr| + 1
    ensures r[i] == v && forall k :: 0 <= k < |arr| && k != i ==> r[k] == arr[k]
  {
    if i < |arr| then arr[i := v] else arr + [v]
  }

  /** Reading a slot after a write sees the written value there and the old slot elsewhere. */
  lemma JsReadAfterWrite<T>(arr: seq<Slot<T>>, i: nat, v: Slot<T>, j: nat)
    requires i <= |arr|
    ensures JsRead(JsWrite(arr, i, v), j) == if j == i then v else JsRead(arr, j)
  {
  }

  /** The array of defined slots holding the elements of `s`. */
  function Lift<T>(s: seq<T>): (r: seq<Slot<T>>)
    ensures |r| == |s| && forall k :: 0 <= k < |s| ==> r[k] == Defined(s[k])
  {
    seq(|s|, k requires 0 <= k < |s| => Defined(s[k]))
  }

  /**
   The acceptance test of `gaussian()`: a value is resampled only when it is
   above 1 or below 0, so the accepted values are the closed interval `[0, 1]`.
   */
  predicate GaussianAccepts(num: real)
    ensures GaussianAccepts(num) <==> 0.0 <= num <= 1.0
  {
    !(num > 1.0 || num < 0.0)
  }

  /**
   `gaussian_shuffle` with JavaScript array semantics and samples as `gaussian()`
   accepts them, in `[0, 1]`. A sample of 1 makes `randomIndex == currentIndex`,
   one past the positions the pass should pick from. Only the first pass can
   reach past the end, so the array grows by at most one slot, and not at all
   when fewer passes run than the array has slots.
   */
  function GaussianShuffleAsWritten<T>(arr: seq<Slot<T>>, samples: seq<real>): (r: seq<Slot<T>>)
    requires |samples| <= |arr| && forall k :: 0 <= k < |samples| ==> GaussianAccepts(samples[k])
    ensures |arr| <= |r| <= |arr| + 1
    ensures |samples| < |arr| ==> |r| == |arr|
    decreases |samples|
  {
    if samples == [] then arr
    else
      var currentIndex := |samples|;
      var randomIndex := RandomIndex(samples[0], currentIndex);
      var ci := currentIndex - 1;
      assert GaussianAccepts(samples[0]);
      var x, y := JsRead(arr, randomIndex), JsRead(arr, ci);
      var t := JsWrite(JsWrite(arr, ci, x), randomIndex, y);
      GaussianShuffleAsWritten(t, samples[1..])
  }

  /**
   With every sample below 1 the as-written loop is the reference shuffle:
   no read falls past the end and no write grows the array.
   */
  lemma {:induction false} AsWrittenAgrees<T>(s: seq<T>, samples: seq<real>)
    requires |samples| <= |s| && InUnitInterval(samples)
    ensures forall k :: 0 <= k < |samples| ==> GaussianAccepts(samples[k])
    ensures GaussianShuffleAsWritten(Lift(s), samples) == Lift(Shuffled(s, samples))
    decreases |samples|
  {
    if samples != [] {
      var n := |samples|;
      var ri := RandomIndex(samples[0], n);
      ShuffledStep(s, samples, n, ri);
      var t := Swap(s, n - 1, ri);
      var l := Lift(s);
      assert GaussianShuffleAsWritten(l, samples) == GaussianShuffleAsWritten(Lift(t), samples[1..]) by {
        LiftSwap(s, n - 1, ri);
      }
      AsWrittenAgrees(t, samples[1..]);
    }
  }

  /** Inside the array, the JavaScript swap is `Swap`. */
  lemma LiftSwap<T>(s: seq<T>, i: nat, j: nat)
    requires i < |s| && j < |s|
    ensures JsWrite(JsWrite(Lift(s), i, JsRead(Lift(s), j)), j, JsRead(Lift(s), i)) == Lift(Swap(s, i, j))
  {
  }

  /**
   `gaussian()` accepts 1, and a first sample of 1 on a one-element array reads
   `arr[1]` (undefined) into `arr[0]` and writes the element to `arr[1]`: the
   "shuffled" array has two slots, the first of them `undefined`.
   */
  lemma GaussianOverflow<T>(x: T)
    ensures GaussianAccepts(1.0)
    ensures GaussianShuffleAsWritten([Defined(x)], [1.0]) == [Undefined, Defined(x)]
  {
    assert RandomIndex(1.0, 1) == 1;
    assert [1.0][1..] == [];
  }

  /**
   On any non-empty array, a first sample of 1 makes the result one slot longer
   than the input, whatever `gaussian()` returns on the later passes.
   */
  lemma GaussianOverflowGrows<T>(s: seq<T>, samples: seq<real>)
    requires |samples| == |s| > 0 && samples[0] == 1.0
    requires forall k :: 0 <= k < |samples| ==> GaussianAccepts(samples[k])
    ensures |GaussianShuffleAsWritten(Lift(s), samples)| == |s| + 1
  {
    var n := |s|;
    var l := Lift(s);
    var t := JsWrite(JsWrite(l, n - 1, JsRead(l, n)), n, JsRead(l, n - 1));
    assert |t| == n + 1;
  }
}
