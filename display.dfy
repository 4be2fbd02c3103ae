/**
 * The order in which the distinct labels of a run are listed: real labels
 * in ascending string order, with "other" after them in the Rust program
 * and before them in the Python program.
 */
module Display {
  import opened Seqs
  import Classifier

  /** Strict lexicographic order on strings, by character code. */
  predicate StrLt(a: string, b: string)
  {
    b != [] && (a == [] || a[0] < b[0] || (a[0] == b[0] && StrLt(a[1..], b[1..])))
  }

  /**
   * StrLt is decided at the first position where a and b differ; when one
   * runs out first, the shorter one (a proper prefix of the other) is less.
   */
  lemma {:induction false} StrLtFirstDifference(a: string, b: string, k: nat)
    requires k <= |a| && k <= |b| && a[..k] == b[..k]
    ensures k == |a| ==> (StrLt(a, b) <==> k < |b|)
    ensures k == |b| ==> !StrLt(a, b)
    ensures k < |a| && k < |b| && a[k] != b[k] ==> (StrLt(a, b) <==> a[k] < b[k])
  {
    if k > 0 {
      assert a[0] == a[..k][0] == b[..k][0] == b[0];
      assert a[1..][..k - 1] == a[..k][1..] == b[..k][1..] == b[1..][..k - 1];
      StrLtFirstDifference(a[1..], b[1..], k - 1);
    }
  }

  lemma {:induction false} StrLtIrreflexive(a: string)
    ensures !StrLt(a, a)
  {
    if a != [] {
      StrLtIrreflexive(a[1..]);
    }
  }

  lemma {:induction false} StrLtTransitive(a: string, b: string, c: string)
    requires StrLt(a, b) && StrLt(b, c)
    ensures StrLt(a, c)
  {
    if a != [] && a[0] == b[0] && b[0] == c[0] {
      StrLtTransitive(a[1..], b[1..], c[1..]);
    }
  }

  lemma {:induction false} StrLtTotal(a: string, b: string)
    ensures a == b || StrLt(a, b) || StrLt(b, a)
  {
    if a != [] && b != [] && a[0] == b[0] {
      StrLtTotal(a[1..], b[1..]);
      if a[1..] == b[1..] {
        assert a == [a[0]] + a[1..] && b == [b[0]] + b[1..];
      }
    }
  }

  /**
   * Whether label a is listed before label b. With otherLast, Rust's
   * comparator: "other" is greater than every label. Without it, Python's
   * key (x != 'other', x): "other" has the key False and comes first.
   */
  predicate Before(a: string, b: string, otherLast: bool)
    ensures a != Classifier.Other && b == Classifier.Other ==> (Before(a, b, otherLast) <==> otherLast)
    ensures a == Classifier.Other && b != Classifier.Other ==> (Before(a, b, otherLast) <==> !otherLast)
    ensures a != Classifier.Other && b != Classifier.Other ==> (Before(a, b, otherLast) <==> StrLt(a, b))
  {
    if otherLast then
      a != Classifier.Other && (b == Classifier.Other || StrLt(a, b))
    else
      (a == Classifier.Other && b != Classifier.Other) ||
      (a != Classifier.Other && b != Classifier.Other && StrLt(a, b))
  }

  lemma BeforeIrreflexive(a: string, otherLast: bool)
    ensures !Before(a, a, otherLast)
  {
    StrLtIrreflexive(a);
  }

  lemma BeforeTransitive(a: string, b: string, c: string, otherLast: bool)
    requires Before(a, b, otherLast) && Before(b, c, otherLast)
    ensures Before(a, c, otherLast)
  {
    if StrLt(a, b) && StrLt(b, c) {
      StrLtTransitive(a, b, c);
    }
  }

  lemma BeforeTotal(a: string, b: string, otherLast: bool)
    requires a != b
    ensures Before(a, b, otherLast) || Before(b, a, otherLast)
  {
    StrLtTotal(a, b);
  }

  /** Listed in display order, each label once. */
  predicate Sorted(s: seq<string>, otherLast: bool)
  {
    forall i, j :: 0 <= i < j < |s| ==> Before(s[i], s[j], otherLast)
  }

  /** m comes before every other element of labels. */
  ghost predicate IsFirst(m: string, labels: set<string>, otherLast: bool)
  {
    m in labels && forall y :: y in labels && y != m ==> Before(m, y, otherLast)
  }

  /** Every non-empty finite set of labels has a first one. */
  lemma {:induction false} HasFirst(labels: set<string>, otherLast: bool)
    requires labels != {}
    ensures exists m :: IsFirst(m, labels, otherLast)
    decreases labels
  {
    var x :| x in labels;
    var rest := labels - {x};
    if rest == {} {
      assert labels == {x};
      assert IsFirst(x, labels, otherLast);
    } else {
      HasFirst(rest, otherLast);
      var m :| IsFirst(m, rest, otherLast);
      BeforeTotal(x, m, otherLast);
      if Before(x, m, otherLast) {
        forall y | y in labels && y != x
          ensures Before(x, y, otherLast)
        {
          if y != m {
            BeforeTransitive(x, m, y, otherLast);
          }
        }
        assert IsFirst(x, labels, otherLast);
      } else {
        assert IsFirst(m, labels, otherLast);
      }
    }
  }

  /**
   * The sorted list of distinct labels both programs build before plotting
   * (`sort_by` on the de-duplicated labels, `sorted(set(patterns), key=...)`).
   */
  ghost function DisplayOrder(labels: set<string>, otherLast: bool): (r: seq<string>)
    ensures Elems(r) == labels
    ensures |r| == |labels|
    ensures Sorted(r, otherLast)
    decreases labels
  {
    if labels == {} then
      []
    else
      HasFirst(labels, otherLast);
      var m :| IsFirst(m, labels, otherLast);
      var rest := DisplayOrder(labels - {m}, otherLast);
      PrependFirst(m, rest, labels, otherLast);
      [m] + rest
  }

  /** A label before every element of a sorted list can be put in front of it. */
  lemma PrependSorted(m: string, rest: seq<string>, otherLast: bool)
    requires Sorted(rest, otherLast)
    requires forall k :: 0 <= k < |rest| ==> Before(m, rest[k], otherLast)
    ensures Sorted([m] + rest, otherLast)
  {
    var r := [m] + rest;
    forall i, j | 0 <= i < j < |r|
      ensures Before(r[i], r[j], otherLast)
    {
      if i == 0 {
        assert r[j] == rest[j - 1];
      } else {
        assert r[i] == rest[i - 1] && r[j] == rest[j - 1];
      }
    }
  }

  /** Putting the first label in front of the sorted others gives the sorted whole. */
  lemma PrependFirst(m: string, rest: seq<string>, labels: set<string>, otherLast: bool)
    requires IsFirst(m, labels, otherLast)
    requires Elems(rest) == labels - {m} && |rest| == |labels - {m}| && Sorted(rest, otherLast)
    ensures Elems([m] + rest) == labels && |[m] + rest| == |labels| && Sorted([m] + rest, otherLast)
  {
    assert Elems([m] + rest) == {m} + Elems(rest);
    assert labels == (labels - {m}) + {m};
    assert |labels| == |labels - {m}| + 1;
    forall k | 0 <= k < |rest|
      ensures Before(m, rest[k], otherLast)
    {
      assert rest[k] in Elems(rest);
    }
    PrependSorted(m, rest, otherLast);
  }

  /** Two sorted lists of the same labels are equal: the display order is unique. */
  lemma {:induction false} SortedUnique(s: seq<string>, t: seq<string>, otherLast: bool)
    requires Sorted(s, otherLast) && Sorted(t, otherLast)
    requires Elems(s) == Elems(t)
    ensures s == t
    decreases |s|
  {
    ElemsHead(t);
    if s != [] {
      assert s[0] in Elems(t);
      assert t != [];
      if s[0] != t[0] {
        assert t[0] in Elems(s);
        var i :| 0 <= i < |s| && s[i] == t[0];
        var j :| 0 <= j < |t| && t[j] == s[0];
        assert Before(s[0], t[0], otherLast) && Before(t[0], s[0], otherLast);
        BeforeTransitive(s[0], t[0], s[0], otherLast);
        BeforeIrreflexive(s[0], otherLast);
      }
      SortedTail(s, otherLast);
      SortedTail(t, otherLast);
      SortedUnique(s[1..], t[1..], otherLast);
      assert s == [s[0]] + s[1..] && t == [t[0]] + t[1..];
    }
  }

  /** Dropping the first label of a sorted list leaves the others. */
  lemma SortedTail(s: seq<string>, otherLast: bool)
    requires Sorted(s, otherLast) && s != []
    ensures Sorted(s[1..], otherLast)
    ensures Elems(s[1..]) == Elems(s) - {s[0]}
  {
    forall k | 1 <= k < |s|
      ensures s[k] != s[0]
    {
      BeforeIrreflexive(s[0], otherLast);
    }
    assert s == [s[0]] + s[1..];
  }

  /**
   * In the display order the real labels are ascending; "other", when
   * present, is the last entry in the Rust order and the first in the
   * Python order.
   */
  lemma OtherPlacement(labels: set<string>, otherLast: bool)
    ensures var r := DisplayOrder(labels, otherLast);
      forall i, j :: 0 <= i < j < |r| && r[i] != Classifier.Other && r[j] != Classifier.Other ==>
        StrLt(r[i], r[j])
    ensures var r := DisplayOrder(labels, otherLast);
      Classifier.Other in labels ==>
        (otherLast ==> r[|r| - 1] == Classifier.Other) && (!otherLast ==> r[0] == Classifier.Other)
  {
    var r := DisplayOrder(labels, otherLast);
    if Classifier.Other in labels {
      assert Classifier.Other in Elems(r);
      var p :| 0 <= p < |r| && r[p] == Classifier.Other;
      if otherLast && p < |r| - 1 {
        assert false;
      }
      if !otherLast && p > 0 {
        assert false;
      }
    }
  }

  /** The labels listed for a run: the distinct entries of `patterns`, in display order. */
  ghost function UniqueLabels(patterns: seq<string>, otherLast: bool): (r: seq<string>)
    ensures Distinct(r)
    ensures forall l :: l in r <==> l in patterns
    ensures Sorted(r, otherLast)
  {
    var r := DisplayOrder(Elems(patterns), otherLast);
    assert forall l :: l in r <==> l in Elems(r);
    assert Distinct(r) by {
      forall i, j | 0 <= i < j < |r|
        ensures r[i] != r[j]
      {
        BeforeIrreflexive(r[i], otherLast);
      }
    }
    r
  }
}
