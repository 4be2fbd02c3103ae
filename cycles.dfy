/**
 * Cycle detection for the digit-sum-square map: iterate from a start value,
 * keep the history of produced values, and report the first repetition as a
 * cycle in canonical form.
 */
module Cycles {
  import opened Seqs
  import opened Wrappers
  import opened Digits
  import opened Rotation

  /** f^k(x): k applications of the map to x. */
  function Iterate(x: nat, base: nat, k: nat): (y: nat)
    requires base >= 2
  {
    if k == 0 then x else Step(Iterate(x, base, k - 1), base)
  }

  /**
   * The history after t rounds: f^1(n), ..., f^t(n). The start value itself
   * is never recorded.
   */
  function History(n: nat, base: nat, t: nat): (h: seq<nat>)
    requires base >= 2
    ensures |h| == t
  {
    if t == 0 then [] else History(n, base, t - 1) + [Iterate(n, base, t)]
  }

  /**
   * A cycle of the map: non-empty, no value twice, and each element is
   * mapped to the next one, the last back to the first.
   */
  ghost predicate IsCycle(c: seq<nat>, base: nat)
    requires base >= 2
  {
    |c| > 0 && Distinct(c) &&
    forall k :: 0 <= k < |c| ==> Step(c[k], base) == c[(k + 1) % |c|]
  }

  /**
   * Index of the first occurrence of x in h (Rust's `position`, Python's
   * `in` followed by `index`).
   */
  function Position(h: seq<nat>, x: nat): (r: Option<nat>)
    ensures r.None? <==> x !in h
    ensures r.Some? ==> r.value < |h| && h[r.value] == x && x !in h[..r.value]
  {
    if h == [] then None
    else if h[0] == x then Some(0)
    else
      match Position(h[1..], x)
      case None => None
      case Some(i) =>
        assert h[1..][..i] == h[1..i + 1];
        Some(i + 1)
  }

  /**
   * The outcome of `detect_cycle` from round t on, given the history of the
   * first t rounds: the map is applied, and the first repetition yields the
   * canonical form of the history from the repeated value on.
   */
  function DetectFrom(n: nat, base: nat, t: nat, maxIter: nat): (r: Option<seq<nat>>)
    requires base >= 2 && t <= maxIter
    ensures r.Some? ==> 0 < |r.value| < maxIter
    decreases maxIter - t
  {
    if t == maxIter then None
    else
      var h := History(n, base, t);
      match Position(h, Iterate(n, base, t + 1))
      case Some(idx) => Some(MinRotation(h[idx..]))
      case None => DetectFrom(n, base, t + 1, maxIter)
  }

  /** `detect_cycle(n, base, max_iter)`. */
  function Detect(n: nat, base: nat, maxIter: nat): (r: Option<seq<nat>>)
    requires base >= 2
    ensures maxIter == 0 ==> r.None?
    ensures r.Some? ==> 0 < |r.value| < maxIter
  {
    DetectFrom(n, base, 0, maxIter)
  }

  /** The history loop of `detect_cycle`. */
  method DetectCycle(n: nat, base: nat, maxIter: nat) returns (r: Option<seq<nat>>)
    requires base >= 2
    ensures r == Detect(n, base, maxIter)
  {
    var history: seq<nat> := [];
    var x := n;
    for i := 0 to maxIter
      invariant history == History(n, base, i)
      invariant Distinct(history)
      invariant x == Iterate(n, base, i)
      invariant DetectFrom(n, base, i, maxIter) == Detect(n, base, maxIter)
    {
      var s := SumDigits(x, base);
      x := s * s;
      var idx := Position(history, x);
      if idx.Some? {
        var cycle := MinimalRotation(history[idx.value..]);
        return Some(cycle);
      }
      history := history + [x];
    }
    return None;
  }

  /** Element k of the history is f^(k+1)(n). */
  lemma {:induction false} HistoryAt(n: nat, base: nat, t: nat, k: nat)
    requires base >= 2 && k < t
    ensures History(n, base, t)[k] == Iterate(n, base, k + 1)
  {
    if k < t - 1 {
      HistoryAt(n, base, t - 1, k);
    }
  }

  /** The history only grows: an earlier history is a prefix of a later one. */
  lemma {:induction false} HistoryPrefix(n: nat, base: nat, t: nat, u: nat)
    requires base >= 2 && t <= u
    ensures History(n, base, t) == History(n, base, u)[..t]
    decreases u
  {
    if t < u {
      HistoryPrefix(n, base, t, u - 1);
    }
  }

  /** (k + 1) mod len without the modulus. */
  lemma NextIndex(k: nat, len: nat)
    requires k < len
    ensures (k + 1) % len == if k + 1 < len then k + 1 else 0
  {
  }

  /** A sub-sequence of a sequence without repetitions has none either. */
  lemma DistinctSlice(s: seq<nat>, i: nat)
    requires Distinct(s) && i <= |s|
    ensures Distinct(s[i..])
  {
    forall a, b | 0 <= a < b < |s| - i
      ensures s[i..][a] != s[i..][b]
    {
      assert s[i..][a] == s[i + a] && s[i..][b] == s[i + b];
    }
  }

  /**
   * When the next value repeats the history at idx, the history from idx on
   * is a cycle of the map.
   */
  lemma RawCycle(n: nat, base: nat, t: nat, idx: nat)
    requires base >= 2 && idx < t
    requires Distinct(History(n, base, t))
    requires History(n, base, t)[idx] == Iterate(n, base, t + 1)
    ensures IsCycle(History(n, base, t)[idx..], base)
  {
    var h := History(n, base, t);
    var c := h[idx..];
    DistinctSlice(h, idx);
    forall k | 0 <= k < |c|
      ensures Step(c[k], base) == c[(k + 1) % |c|]
    {
      NextIndex(k, |c|);
      HistoryAt(n, base, t, idx + k);
      if k + 1 < |c| {
        HistoryAt(n, base, t, idx + k + 1);
      }
    }
  }

  /** Rotating a cycle gives a cycle. */
  lemma RotationKeepsCycle(s: seq<nat>, i: nat, base: nat)
    requires base >= 2 && i < |s|
    requires IsCycle(s, base)
    ensures IsCycle(Rot(s, i), base)
  {
    var n := |s|;
    var r := Rot(s, i);
    forall a, b | 0 <= a < b < n
      ensures r[a] != r[b]
    {
      RotAt(s, i, a);
      RotAt(s, i, b);
    }
    forall p | 0 <= p < n
      ensures Step(r[p], base) == r[(p + 1) % n]
    {
      RotAt(s, i, p);
      var q := if i + p < n then i + p else i + p - n;
      NextIndex(p, n);
      NextIndex(q, n);
      RotAt(s, i, (p + 1) % n);
    }
  }

  /** Elements of a rotation come from the rotated sequence. */
  lemma RotationElements(r: seq<nat>, s: seq<nat>)
    requires IsRotationOf(r, s)
    ensures forall k :: 0 <= k < |r| ==> r[k] in s
  {
    var i :| 0 <= i < |s| && r == Rot(s, i);
    forall k | 0 <= k < |r|
      ensures r[k] in s
    {
      RotAt(s, i, k);
    }
  }

  /** The canonical form of a cycle is a canonical cycle over the same values. */
  lemma CanonicalCycle(raw: seq<nat>, base: nat)
    requires base >= 2 && IsCycle(raw, base)
    ensures var c := MinRotation(raw);
      IsCycle(c, base) && |c| == |raw| && MinRotation(c) == c &&
      forall k :: 0 <= k < |c| ==> c[k] in raw
  {
    var c := MinRotation(raw);
    var i :| 0 <= i < |raw| && c == Rot(raw, i);
    RotationKeepsCycle(raw, i, base);
    MinRotationIdempotent(raw);
    RotationElements(c, raw);
  }

  /** A repeated value makes the longer history repeat itself. */
  lemma RepeatBreaksDistinct(n: nat, base: nat, t: nat, idx: nat, maxIter: nat)
    requires base >= 2 && idx < t < maxIter
    requires History(n, base, t)[idx] == Iterate(n, base, t + 1)
    ensures !Distinct(History(n, base, maxIter))
  {
    var hm := History(n, base, maxIter);
    HistoryPrefix(n, base, t + 1, maxIter);
    assert History(n, base, t + 1) == History(n, base, t) + [Iterate(n, base, t + 1)];
    assert hm[idx] == hm[t];
  }

  /**
   * The repetition found in round t: its canonical form is a canonical
   * cycle of the map, at most maxIter long, made of trajectory values, and
   * the first maxIter values are no longer pairwise different.
   */
  lemma FoundCycle(n: nat, base: nat, t: nat, idx: nat, maxIter: nat)
    requires base >= 2 && t < maxIter
    requires Distinct(History(n, base, t))
    requires Position(History(n, base, t), Iterate(n, base, t + 1)) == Some(idx)
    ensures !Distinct(History(n, base, maxIter))
    ensures var c := MinRotation(History(n, base, t)[idx..]);
      IsCycle(c, base) && |c| <= maxIter && MinRotation(c) == c &&
      forall k :: 0 <= k < |c| ==> c[k] in History(n, base, maxIter)
  {
    var h := History(n, base, t);
    var hm := History(n, base, maxIter);
    RepeatBreaksDistinct(n, base, t, idx, maxIter);
    var raw := h[idx..];
    RawCycle(n, base, t, idx);
    CanonicalCycle(raw, base);
    HistoryPrefix(n, base, t, maxIter);
    assert forall v :: v in raw ==> v in hm by {
      assert forall p :: 0 <= p < |raw| ==> raw[p] == hm[idx + p];
    }
  }

  /**
   * Detection from round t, when the first t values were all new: None
   * exactly when the first maxIter values are all new; a found cycle is a
   * canonical cycle of the map, no longer than maxIter, made of values of
   * the trajectory.
   */
  lemma {:induction false} DetectFromSound(n: nat, base: nat, t: nat, maxIter: nat)
    requires base >= 2 && t <= maxIter
    requires Distinct(History(n, base, t))
    ensures DetectFrom(n, base, t, maxIter).None? <==> Distinct(History(n, base, maxIter))
    ensures DetectFrom(n, base, t, maxIter).Some? ==>
      var c := DetectFrom(n, base, t, maxIter).value;
      IsCycle(c, base) && |c| <= maxIter && MinRotation(c) == c &&
      forall k :: 0 <= k < |c| ==> c[k] in History(n, base, maxIter)
    decreases maxIter - t
  {
    if t < maxIter {
      var h := History(n, base, t);
      var x := Iterate(n, base, t + 1);
      match Position(h, x)
      case Some(idx) =>
        FoundCycle(n, base, t, idx, maxIter);
      case None =>
        assert Distinct(History(n, base, t + 1)) by {
          assert History(n, base, t + 1) == h + [x];
        }
        DetectFromSound(n, base, t + 1, maxIter);
    }
  }

  /**
   * `detect_cycle` returns None exactly when the first maxIter values of the
   * trajectory are pairwise different (so always for maxIter = 0); any cycle
   * it returns is a non-empty canonical cycle of the map with distinct
   * elements, at most maxIter long, reached from n.
   */
  lemma DetectSound(n: nat, base: nat, maxIter: nat)
    requires base >= 2
    ensures maxIter == 0 ==> Detect(n, base, maxIter) == None
    ensures Detect(n, base, maxIter).None? <==> Distinct(History(n, base, maxIter))
    ensures Detect(n, base, maxIter).Some? ==>
      var c := Detect(n, base, maxIter).value;
      IsCycle(c, base) && |c| <= maxIter && MinRotation(c) == c &&
      forall k :: 0 <= k < |c| ==> c[k] in History(n, base, maxIter)
  {
    DetectFromSound(n, base, 0, maxIter);
  }

  /**
   * Base 10 from 1: f(1) = 1, but 1 is not in the history, so one round
   * finds nothing and two rounds find the cycle [1].
   */
  lemma FixedPointBase10(maxIter: nat)
    ensures maxIter <= 1 ==> Detect(1, 10, maxIter) == None
    ensures maxIter >= 2 ==> Detect(1, 10, maxIter) == Some([1])
  {
    assert DigitSum(1, 10) == 1;
    assert Iterate(1, 10, 1) == 1;
    assert Iterate(1, 10, 2) == 1;
    assert History(1, 10, 1) == [1];
    if maxIter >= 2 {
      assert DetectFrom(1, 10, 1, maxIter) == Some(MinRotation([1]));
      SingletonCanonical(1);
    }
  }

  /** A one-element cycle is its own canonical form. */
  lemma SingletonCanonical(v: nat)
    ensures MinRotation([v]) == [v]
  {
    var c := MinRotation([v]);
    var i :| 0 <= i < 1 && c == Rot([v], i);
    assert Rot([v], 0) == [v];
  }

  /** Base 2: 1, 2 and 3 all end in the fixed point 1 (3 -> 4 -> 1 -> 1). */
  lemma BinaryConvergence(n: nat, maxIter: nat)
    requires 1 <= n <= 3 && maxIter >= 3
    ensures Detect(n, 2, maxIter) == Some([1])
  {
    SingletonCanonical(1);
    assert DigitSum(1, 2) == 1 && DigitSum(2, 2) == 1 && DigitSum(3, 2) == 2 && DigitSum(4, 2) == 1;
    assert Iterate(n, 2, 1) == (if n == 3 then 4 else 1);
    assert Iterate(n, 2, 2) == 1;
    assert Iterate(n, 2, 3) == 1;
    assert History(n, 2, 1) == [Iterate(n, 2, 1)];
    assert History(n, 2, 2) == [Iterate(n, 2, 1), 1];
    if n == 3 {
      assert DetectFrom(n, 2, 2, maxIter) == Some(MinRotation([1]));
      assert DetectFrom(n, 2, 1, maxIter) == DetectFrom(n, 2, 2, maxIter);
    } else {
      assert DetectFrom(n, 2, 1, maxIter) == Some(MinRotation([1]));
    }
  }
}
