/**
 * Canonical form of a cycle: its lexicographically least rotation, the key
 * under which cycles that differ only by their starting point are merged.
 */
module Rotation {

  /**
   * Lexicographic order on sequences of naturals, a proper prefix first:
   * the order of Rust's `Vec<u32>` and of Python's tuples of ints.
   */
  predicate LexLe(a: seq<nat>, b: seq<nat>)
  {
    a == [] || (b != [] && (a[0] < b[0] || (a[0] == b[0] && LexLe(a[1..], b[1..]))))
  }

  /**
   * LexLe is decided at the first position where a and b differ; when one
   * runs out first, the shorter one (a prefix of the other) comes first.
   */
  lemma {:induction false} LexLeFirstDifference(a: seq<nat>, b: seq<nat>, k: nat)
    requires k <= |a| && k <= |b| && a[..k] == b[..k]
    ensures k == |a| ==> LexLe(a, b)
    ensures k == |b| && k < |a| ==> !LexLe(a, b)
    ensures k < |a| && k < |b| && a[k] != b[k] ==> (LexLe(a, b) <==> a[k] < b[k])
  {
    if k > 0 {
      assert a[0] == a[..k][0] == b[..k][0] == b[0];
      assert a[1..][..k - 1] == a[..k][1..] == b[..k][1..] == b[1..][..k - 1];
      LexLeFirstDifference(a[1..], b[1..], k - 1);
    }
  }

  lemma {:induction false} LexLeReflexive(a: seq<nat>)
    ensures LexLe(a, a)
  {
    if a != [] {
      LexLeReflexive(a[1..]);
    }
  }

  lemma {:induction false} LexLeTotal(a: seq<nat>, b: seq<nat>)
    ensures LexLe(a, b) || LexLe(b, a)
  {
    if a != [] && b != [] && a[0] == b[0] {
      LexLeTotal(a[1..], b[1..]);
    }
  }

  lemma {:induction false} LexLeAntisymmetric(a: seq<nat>, b: seq<nat>)
    requires LexLe(a, b) && LexLe(b, a)
    ensures a == b
  {
    if a != [] {
      LexLeAntisymmetric(a[1..], b[1..]);
      assert a == [a[0]] + a[1..] && b == [b[0]] + b[1..];
    }
  }

  lemma {:induction false} LexLeTransitive(a: seq<nat>, b: seq<nat>, c: seq<nat>)
    requires LexLe(a, b) && LexLe(b, c)
    ensures LexLe(a, c)
  {
    if a != [] && a[0] == b[0] && b[0] == c[0] {
      LexLeTransitive(a[1..], b[1..], c[1..]);
    }
  }

  /** The rotation starting at offset i: `cycle[i..] + cycle[..i]`. */
  function Rot(s: seq<nat>, i: nat): seq<nat>
    requires i <= |s|
  {
    s[i..] + s[..i]
  }

  /** r is one of the rotations of the non-empty sequence s. */
  ghost predicate IsRotationOf(r: seq<nat>, s: seq<nat>)
  {
    exists i :: 0 <= i < |s| && r == Rot(s, i)
  }

  /** All rotations, in order of offset (the list both sources build). */
  function Rotations(s: seq<nat>): (rs: seq<seq<nat>>)
    ensures |rs| == |s|
    ensures forall i :: 0 <= i < |s| ==> |rs[i]| == |s| && IsRotationOf(rs[i], s)
    ensures forall i :: 0 <= i < |s| ==> Rot(s, i) in rs
  {
    var rs := seq(|s|, i requires 0 <= i < |s| => Rot(s, i));
    assert forall i :: 0 <= i < |s| ==> rs[i] == Rot(s, i);
    rs
  }

  /** A least element of a non-empty list (Rust's `min()`, Python's `min`). */
  function Min(xs: seq<seq<nat>>): (m: seq<nat>)
    requires xs != []
    ensures m in xs
    ensures forall j :: 0 <= j < |xs| ==> LexLe(m, xs[j])
  {
    if |xs| == 1 then
      LexLeReflexive(xs[0]);
      xs[0]
    else
      var m := Min(xs[..|xs| - 1]);
      var last := xs[|xs| - 1];
      if LexLe(m, last) then
        m
      else
        MinStep(xs[..|xs| - 1], m, last);
        last
  }

  /** A new element below the least of a list is below every element of it. */
  lemma MinStep(xs: seq<seq<nat>>, m: seq<nat>, last: seq<nat>)
    requires forall j :: 0 <= j < |xs| ==> LexLe(m, xs[j])
    requires !LexLe(m, last)
    ensures LexLe(last, last)
    ensures forall j :: 0 <= j < |xs| ==> LexLe(last, xs[j])
  {
    LexLeTotal(m, last);
    LexLeReflexive(last);
    forall j | 0 <= j < |xs|
      ensures LexLe(last, xs[j])
    {
      LexLeTransitive(last, m, xs[j]);
    }
  }

  /**
   * Python's `minimal_rotation`: the least of all rotations; an empty input
   * is returned unchanged.
   */
  function MinRotation(s: seq<nat>): (r: seq<nat>)
    ensures |r| == |s|
    ensures s == [] ==> r == []
    ensures s != [] ==> IsRotationOf(r, s)
    ensures forall j :: 0 <= j < |s| ==> LexLe(r, Rot(s, j))
  {
    if s == [] then
      s
    else
      var rs := Rotations(s);
      var m := Min(rs);
      assert forall j :: 0 <= j < |s| ==> rs[j] == Rot(s, j);
      m
  }

  /**
   * Rust's `minimal_rotation`: collects every rotation in a vector, then
   * takes the minimum; the empty cycle gives the empty vector.
   */
  method MinimalRotation(cycle: seq<nat>) returns (r: seq<nat>)
    ensures r == MinRotation(cycle)
  {
    if cycle == [] {
      return [];
    }
    var n := |cycle|;
    var rotations: seq<seq<nat>> := [];
    for i := 0 to n
      invariant |rotations| == i
      invariant forall j :: 0 <= j < i ==> rotations[j] == Rot(cycle, j)
    {
      var rot := cycle[i..];
      rot := rot + cycle[..i];
      rotations := rotations + [rot];
    }
    assert rotations == Rotations(cycle);
    r := Min(rotations);
  }

  /** Element p of a rotation, read off the original sequence. */
  lemma RotAt(s: seq<nat>, i: nat, p: nat)
    requires i < |s| && p < |s|
    ensures Rot(s, i)[p] == s[if i + p < |s| then i + p else i + p - |s|]
  {
  }

  /** A rotation of a rotation is a rotation, offsets adding modulo the length. */
  lemma RotOfRot(s: seq<nat>, k: nat, j: nat)
    requires k < |s| && j < |s|
    ensures Rot(Rot(s, k), j) == Rot(s, if k + j < |s| then k + j else k + j - |s|)
  {
    var n := |s|;
    var m := if k + j < n then k + j else k + j - n;
    var t := Rot(s, k);
    forall p | 0 <= p < n
      ensures Rot(t, j)[p] == Rot(s, m)[p]
    {
      RotAt(t, j, p);
      var q := if j + p < n then j + p else j + p - n;
      RotAt(s, k, q);
      RotAt(s, m, p);
    }
  }

  /** Only one rotation can be below all rotations. */
  lemma MinRotationUnique(s: seq<nat>, r: seq<nat>)
    requires IsRotationOf(r, s)
    requires forall j :: 0 <= j < |s| ==> LexLe(r, Rot(s, j))
    ensures r == MinRotation(s)
  {
    var m := MinRotation(s);
    var i :| 0 <= i < |s| && m == Rot(s, i);
    var i' :| 0 <= i' < |s| && r == Rot(s, i');
    assert LexLe(r, m) && LexLe(m, r);
    LexLeAntisymmetric(r, m);
  }

  /** A rotation of s that is below all rotations of s is one of, and below all, rotations of Rot(s, k). */
  lemma LeastRotationOfRotation(s: seq<nat>, k: nat, m: seq<nat>)
    requires k < |s| && IsRotationOf(m, s)
    requires forall j :: 0 <= j < |s| ==> LexLe(m, Rot(s, j))
    ensures IsRotationOf(m, Rot(s, k))
    ensures forall j :: 0 <= j < |s| ==> LexLe(m, Rot(Rot(s, k), j))
  {
    var n := |s|;
    var t := Rot(s, k);
    var i :| 0 <= i < n && m == Rot(s, i);
    var j := if i >= k then i - k else i - k + n;
    RotOfRot(s, k, j);
    assert m == Rot(t, j);
    forall j' | 0 <= j' < n
      ensures LexLe(m, Rot(t, j'))
    {
      var q := if k + j' < n then k + j' else k + j' - n;
      RotOfRot(s, k, j');
      assert LexLe(m, Rot(s, q));
    }
  }

  /** Every rotation of s has the same canonical form as s. */
  lemma MinRotationRotationInvariant(s: seq<nat>, k: nat)
    requires k < |s|
    ensures MinRotation(Rot(s, k)) == MinRotation(s)
  {
    var m := MinRotation(s);
    LeastRotationOfRotation(s, k, m);
    MinRotationUnique(Rot(s, k), m);
  }

  /** Canonicalising a canonical cycle changes nothing. */
  lemma MinRotationIdempotent(s: seq<nat>)
    ensures MinRotation(MinRotation(s)) == MinRotation(s)
  {
    if s != [] {
      var i :| 0 <= i < |s| && MinRotation(s) == Rot(s, i);
      MinRotationRotationInvariant(s, i);
    }
  }

  /** [3,1,2] and [2,3,1] both canonicalise to [1,2,3]. */
  lemma MinRotationExample()
    ensures MinRotation([3, 1, 2]) == [1, 2, 3]
    ensures MinRotation([2, 3, 1]) == [1, 2, 3]
  {
    var s: seq<nat> := [3, 1, 2];
    assert Rot(s, 0) == [3, 1, 2] && Rot(s, 1) == [1, 2, 3] && Rot(s, 2) == [2, 3, 1];
    assert LexLe([1, 2, 3], [2, 3, 1]) && LexLe([1, 2, 3], [3, 1, 2]);
    LexLeReflexive([1, 2, 3]);
    MinRotationUnique(s, [1, 2, 3]);
    MinRotationRotationInvariant(s, 2);
  }
}
