/**
 * The classification loop of both programs' `main`: every start value
 * 1..N is run through cycle detection, distinct canonical cycles receive
 * labels in order of first appearance, and the two label tables are kept as
 * inverse maps.
 */
module Classifier {
  import opened Seqs
  import opened Wrappers
  import opened Cycles
  import opened Labels

  /** The label of start values whose trajectory shows no repetition within the bound. */
  const Other: string := "other"

  datatype Classification = Classification(
    patterns: seq<string>,
    cycleToLabel: map<seq<nat>, string>,
    labelToCycle: map<string, seq<nat>>)

  /** The label given to the j-th distinct cycle. */
  function LabelAt(j: nat): (name: string)
    requires j < LabelCount
  {
    GetLabel(j).value
  }

  /** The first k labels, in order of their indices. */
  function LabelsUpTo(k: nat): (labels: seq<string>)
    requires k <= LabelCount
  {
    seq(k, j requires 0 <= j < k => LabelAt(j))
  }

  /** How many start values `1..=N` (Rust) or `range(1, N + 1)` (Python) covers. */
  function Count(nMax: int): (c: nat)
    ensures c == 0 <==> nMax <= 0
    ensures nMax > 0 ==> c == nMax
  {
    if nMax < 0 then 0 else nMax
  }

  /** The detection results for the start values 1..k, in order. */
  function Detections(base: nat, maxIter: nat, k: nat): (ds: seq<Option<seq<nat>>>)
    requires base >= 2
    ensures |ds| == k
  {
    if k == 0 then [] else Detections(base, maxIter, k - 1) + [Detect(k, base, maxIter)]
  }

  /** The distinct cycles among detection results, in order of first appearance. */
  function Appearances(ds: seq<Option<seq<nat>>>): (order: seq<seq<nat>>)
    ensures Distinct(order)
  {
    if ds == [] then []
    else
      var init := ds[..|ds| - 1];
      var prev := Appearances(init);
      var d := ds[|ds| - 1];
      assert ds == init + [d];
      if d.Some? && d.value !in prev then prev + [d.value] else prev
  }

  /** The first appearances are exactly the cycles among the results. */
  lemma {:induction false} AppearancesMembers(ds: seq<Option<seq<nat>>>)
    ensures forall c :: c in Appearances(ds) <==> Some(c) in ds
  {
    if ds != [] {
      var init := ds[..|ds| - 1];
      assert ds == init + [ds[|ds| - 1]];
      AppearancesMembers(init);
    }
  }

  /** The cycles met for start values 1..N, in order of first appearance. */
  function Order(nMax: int, base: nat, maxIter: nat): (order: seq<seq<nat>>)
    requires base >= 2
  {
    Appearances(Detections(base, maxIter, Count(nMax)))
  }

  /**
   * The two tables for the cycles in `order`: the j-th cycle and the j-th
   * label map to each other, and nothing else is in either table.
   */
  ghost predicate LabelTable(cycleToLabel: map<seq<nat>, string>, labelToCycle: map<string, seq<nat>>,
                             order: seq<seq<nat>>)
  {
    |order| <= LabelCount &&
    cycleToLabel.Keys == Elems(order) &&
    labelToCycle.Keys == Elems(LabelsUpTo(|order|)) &&
    forall j :: 0 <= j < |order| ==>
      order[j] in cycleToLabel && cycleToLabel[order[j]] == LabelAt(j) &&
      LabelAt(j) in labelToCycle && labelToCycle[LabelAt(j)] == order[j]
  }

  /** The entry of `patterns` for a start value whose detection gave d. */
  ghost predicate HasPattern(p: string, d: Option<seq<nat>>, cycleToLabel: map<seq<nat>, string>)
  {
    match d
    case None => p == Other
    case Some(c) => c in cycleToLabel && p == cycleToLabel[c]
  }

  /** What a completed run over 1..N holds. */
  ghost predicate ClassifiedAs(cl: Classification, nMax: int, base: nat, maxIter: nat)
    requires base >= 2
  {
    |cl.patterns| == Count(nMax) &&
    LabelTable(cl.cycleToLabel, cl.labelToCycle, Order(nMax, base, maxIter)) &&
    forall i :: 0 <= i < |cl.patterns| ==>
      HasPattern(cl.patterns[i], Detect(i + 1, base, maxIter), cl.cycleToLabel)
  }

  /** Detection results of a shorter range are a prefix. */
  lemma {:induction false} DetectionsPrefix(base: nat, maxIter: nat, k: nat, u: nat)
    requires base >= 2 && k <= u
    ensures Detections(base, maxIter, k) == Detections(base, maxIter, u)[..k]
    decreases u
  {
    if k < u {
      DetectionsPrefix(base, maxIter, k, u - 1);
    }
  }

  /** Element i of the detection results is the detection from i + 1. */
  lemma DetectionsAt(base: nat, maxIter: nat, k: nat, i: nat)
    requires base >= 2 && i < k
    ensures Detections(base, maxIter, k)[i] == Detect(i + 1, base, maxIter)
  {
    DetectionsPrefix(base, maxIter, i + 1, k);
  }

  /** First appearances over a prefix of the results are a prefix of all first appearances. */
  lemma {:induction false} AppearancesPrefix(ds: seq<Option<seq<nat>>>, k: nat)
    requires k <= |ds|
    ensures |Appearances(ds[..k])| <= |Appearances(ds)|
    ensures Appearances(ds[..k]) == Appearances(ds)[..|Appearances(ds[..k])|]
    decreases |ds| - k
  {
    if k < |ds| {
      var init := ds[..|ds| - 1];
      assert init[..k] == ds[..k];
      AppearancesPrefix(init, k);
    } else {
      assert ds[..k] == ds;
    }
  }

  /** Different indices have different labels. */
  lemma LabelAtInjective(i: nat, j: nat)
    requires i < LabelCount && j < LabelCount && i != j
    ensures LabelAt(i) != LabelAt(j)
  {
    if LabelAt(i) == LabelAt(j) {
      GetLabelInjective(i, j);
    }
  }

  /** The first k + 1 labels are the first k followed by label k. */
  lemma LabelsUpToSnoc(k: nat)
    requires k < LabelCount
    ensures LabelsUpTo(k + 1) == LabelsUpTo(k) + [LabelAt(k)]
    ensures Elems(LabelsUpTo(k + 1)) == Elems(LabelsUpTo(k)) + {LabelAt(k)}
  {
    var a, b := LabelsUpTo(k + 1), LabelsUpTo(k) + [LabelAt(k)];
    forall j | 0 <= j < k + 1
      ensures a[j] == b[j]
    {
    }
    assert a == b;
  }

  /** One more start value adds its cycle to the first appearances if it is new. */
  lemma AppearancesStep(base: nat, maxIter: nat, n: nat)
    requires base >= 2 && n >= 1
    ensures var prev := Appearances(Detections(base, maxIter, n - 1));
      var d := Detect(n, base, maxIter);
      Appearances(Detections(base, maxIter, n)) ==
        if d.Some? && d.value !in prev then prev + [d.value] else prev
  {
    assert Detections(base, maxIter, n)[..n - 1] == Detections(base, maxIter, n - 1);
  }

  /** Adding the cycle in position |order| with the next label keeps the tables paired. */
  lemma TableExtend(c2l: map<seq<nat>, string>, l2c: map<string, seq<nat>>, order: seq<seq<nat>>, c: seq<nat>)
    requires LabelTable(c2l, l2c, order)
    requires c !in order && |order| < LabelCount
    ensures LabelTable(c2l[c := LabelAt(|order|)], l2c[LabelAt(|order|) := c], order + [c])
  {
    var k := |order|;
    var lk := LabelAt(k);
    var c2l', l2c', order' := c2l[c := lk], l2c[lk := c], order + [c];
    assert Elems(order') == Elems(order) + {c};
    assert c2l'.Keys == Elems(order');
    LabelsUpToSnoc(k);
    assert l2c'.Keys == Elems(LabelsUpTo(k + 1));
    forall j | 0 <= j < k + 1
      ensures order'[j] in c2l' && c2l'[order'[j]] == LabelAt(j)
      ensures LabelAt(j) in l2c' && l2c'[LabelAt(j)] == order'[j]
    {
      if j < k {
        assert order'[j] == order[j] && order[j] != c;
        LabelAtInjective(j, k);
      }
    }
  }

  /** Inserting a new cycle leaves the labels of earlier start values unchanged. */
  lemma PatternsKept(patterns: seq<string>, base: nat, maxIter: nat,
                     c2l: map<seq<nat>, string>, c: seq<nat>, l: string)
    requires base >= 2 && c !in c2l
    requires forall i :: 0 <= i < |patterns| ==> HasPattern(patterns[i], Detect(i + 1, base, maxIter), c2l)
    ensures forall i :: 0 <= i < |patterns| ==> HasPattern(patterns[i], Detect(i + 1, base, maxIter), c2l[c := l])
  {
  }

  /** Appending the label of the next start value extends the labelled prefix. */
  lemma PatternsAppend(patterns: seq<string>, lbl: string, n: nat, d: Option<seq<nat>>,
                       base: nat, maxIter: nat, c2l: map<seq<nat>, string>)
    requires base >= 2 && n == |patterns| + 1 && d == Detect(n, base, maxIter)
    requires forall i :: 0 <= i < |patterns| ==> HasPattern(patterns[i], Detect(i + 1, base, maxIter), c2l)
    requires HasPattern(lbl, d, c2l)
    ensures forall i :: 0 <= i < |patterns| + 1 ==>
      HasPattern((patterns + [lbl])[i], Detect(i + 1, base, maxIter), c2l)
  {
  }

  /**
   * When the cycle of start value n is new and the labels are used up, the
   * whole range has more distinct cycles than labels.
   */
  lemma LabelsExhausted(nMax: int, base: nat, maxIter: nat, n: nat)
    requires base >= 2 && 1 <= n <= Count(nMax)
    requires |Appearances(Detections(base, maxIter, n))| > LabelCount
    ensures |Order(nMax, base, maxIter)| > LabelCount
  {
    DetectionsPrefix(base, maxIter, n, Count(nMax));
    AppearancesPrefix(Detections(base, maxIter, Count(nMax)), n);
  }

  /** The classification loop of `main`, lifted into a method. */
  method Classify(nMax: int, base: nat, maxIter: nat) returns (r: Option<Classification>)
    requires base >= 2
    ensures r.None? <==> |Order(nMax, base, maxIter)| > LabelCount
    ensures r.Some? ==> ClassifiedAs(r.value, nMax, base, maxIter)
  {
    var patterns: seq<string> := [];
    var cycleToLabel: map<seq<nat>, string> := map[];
    var labelToCycle: map<string, seq<nat>> := map[];
    var labelIdx: nat := 0;
    ghost var order: seq<seq<nat>> := [];
    var count := Count(nMax);
    for n := 1 to count + 1
      invariant |patterns| == n - 1
      invariant order == Appearances(Detections(base, maxIter, n - 1))
      invariant labelIdx == |order|
      invariant LabelTable(cycleToLabel, labelToCycle, order)
      invariant forall i :: 0 <= i < n - 1 ==>
        HasPattern(patterns[i], Detect(i + 1, base, maxIter), cycleToLabel)
    {
      AppearancesStep(base, maxIter, n);
      var cycle := DetectCycle(n, base, maxIter);
      var lbl: string;
      if cycle.Some? {
        if cycle.value !in cycleToLabel {
          assert cycle.value !in order;
          var next := GetLabel(labelIdx);
          if next.None? {
            // the label index runs past "zz": both programs abort here
            LabelsExhausted(nMax, base, maxIter, n);
            return None;
          }
          TableExtend(cycleToLabel, labelToCycle, order, cycle.value);
          PatternsKept(patterns, base, maxIter, cycleToLabel, cycle.value, next.value);
          cycleToLabel := cycleToLabel[cycle.value := next.value];
          labelToCycle := labelToCycle[next.value := cycle.value];
          labelIdx := labelIdx + 1;
          order := order + [cycle.value];
        } else {
          assert cycle.value in order;
        }
        lbl := cycleToLabel[cycle.value];
      } else {
        lbl := Other;
      }
      assert order == Appearances(Detections(base, maxIter, n));
      PatternsAppend(patterns, lbl, n, cycle, base, maxIter, cycleToLabel);
      patterns := patterns + [lbl];
    }
    r := Some(Classification(patterns, cycleToLabel, labelToCycle));
  }

  /**
   * After a run the two tables are inverse to each other, each has one
   * entry per distinct cycle (`label_idx` of them), and "other" is never a
   * label of a cycle.
   */
  lemma TablesInverse(cl: Classification, nMax: int, base: nat, maxIter: nat)
    requires base >= 2 && ClassifiedAs(cl, nMax, base, maxIter)
    ensures forall c :: c in cl.cycleToLabel ==>
      cl.cycleToLabel[c] in cl.labelToCycle && cl.labelToCycle[cl.cycleToLabel[c]] == c
    ensures forall l :: l in cl.labelToCycle ==>
      cl.labelToCycle[l] in cl.cycleToLabel && cl.cycleToLabel[cl.labelToCycle[l]] == l
    ensures |cl.cycleToLabel| == |cl.labelToCycle| == |Order(nMax, base, maxIter)|
    ensures Other !in cl.labelToCycle
    ensures forall c :: c in cl.cycleToLabel ==> cl.cycleToLabel[c] != Other
  {
    TableInverse(cl.cycleToLabel, cl.labelToCycle, Order(nMax, base, maxIter));
  }

  /** A label table over distinct cycles pairs them one to one with labels other than "other". */
  lemma TableInverse(c2l: map<seq<nat>, string>, l2c: map<string, seq<nat>>, order: seq<seq<nat>>)
    requires Distinct(order) && LabelTable(c2l, l2c, order)
    ensures forall c :: c in c2l ==> c2l[c] in l2c && l2c[c2l[c]] == c
    ensures forall l :: l in l2c ==> l2c[l] in c2l && c2l[l2c[l]] == l
    ensures |c2l| == |l2c| == |order|
    ensures Other !in l2c
    ensures forall c :: c in c2l ==> c2l[c] != Other
  {
    var labels := LabelsUpTo(|order|);
    LabelsDistinct(|order|);
    forall c | c in c2l
      ensures c2l[c] in l2c && l2c[c2l[c]] == c
      ensures c2l[c] != Other
    {
      assert c in Elems(order);
      var j :| 0 <= j < |order| && order[j] == c;
      assert labels[j] in Elems(labels);
    }
    forall l | l in l2c
      ensures l2c[l] in c2l && c2l[l2c[l]] == l
    {
      assert l in Elems(labels);
      var j :| 0 <= j < |labels| && labels[j] == l;
    }
    DistinctCard(order);
    DistinctCard(labels);
  }

  /** The first k labels are pairwise different and none of them is "other". */
  lemma LabelsDistinct(k: nat)
    requires k <= LabelCount
    ensures Distinct(LabelsUpTo(k))
    ensures Other !in Elems(LabelsUpTo(k))
  {
    var labels := LabelsUpTo(k);
    forall i, j | 0 <= i < j < k
      ensures labels[i] != labels[j]
    {
      LabelAtInjective(i, j);
    }
    forall j | 0 <= j < k
      ensures labels[j] != Other
    {
      assert |LabelAt(j)| <= 2;
    }
  }

  /** A start value is labelled "other" exactly when no cycle was detected for it. */
  lemma OtherIffNoCycle(cl: Classification, nMax: int, base: nat, maxIter: nat, i: nat)
    requires base >= 2 && ClassifiedAs(cl, nMax, base, maxIter)
    requires i < |cl.patterns|
    ensures cl.patterns[i] == Other <==> Detect(i + 1, base, maxIter).None?
  {
    TablesInverse(cl, nMax, base, maxIter);
  }

  /** Two start values with cycles share a label exactly when they reached the same canonical cycle. */
  lemma SameLabelIffSameCycle(cl: Classification, nMax: int, base: nat, maxIter: nat, i: nat, j: nat)
    requires base >= 2 && ClassifiedAs(cl, nMax, base, maxIter)
    requires i < |cl.patterns| && j < |cl.patterns|
    requires Detect(i + 1, base, maxIter).Some? && Detect(j + 1, base, maxIter).Some?
    ensures cl.patterns[i] == cl.patterns[j] <==> Detect(i + 1, base, maxIter) == Detect(j + 1, base, maxIter)
  {
    var ci, cj := Detect(i + 1, base, maxIter).value, Detect(j + 1, base, maxIter).value;
    assert ci in cl.cycleToLabel && cl.patterns[i] == cl.cycleToLabel[ci] by {
      assert HasPattern(cl.patterns[i], Detect(i + 1, base, maxIter), cl.cycleToLabel);
    }
    assert cj in cl.cycleToLabel && cl.patterns[j] == cl.cycleToLabel[cj] by {
      assert HasPattern(cl.patterns[j], Detect(j + 1, base, maxIter), cl.cycleToLabel);
    }
    TablesInverse(cl, nMax, base, maxIter);
    LabelsSeparate(cl.cycleToLabel, cl.labelToCycle, ci, cj);
  }

  /** Under a map with a left inverse, two keys have the same label only if they are equal. */
  lemma LabelsSeparate(c2l: map<seq<nat>, string>, l2c: map<string, seq<nat>>, ci: seq<nat>, cj: seq<nat>)
    requires ci in c2l && cj in c2l
    requires forall c :: c in c2l ==> c2l[c] in l2c && l2c[c2l[c]] == c
    ensures c2l[ci] == c2l[cj] <==> ci == cj
  {
    if c2l[ci] == c2l[cj] {
      assert ci == l2c[c2l[ci]] == l2c[c2l[cj]] == cj;
    }
  }

  /**
   * A cycle first met at start value n receives the label whose index is the
   * number of distinct cycles met before n (`get_label(label_idx)`).
   */
  lemma NewCycleGetsNextLabel(cl: Classification, nMax: int, base: nat, maxIter: nat, n: nat)
    requires base >= 2 && ClassifiedAs(cl, nMax, base, maxIter)
    requires 1 <= n <= Count(nMax)
    requires Detect(n, base, maxIter).Some?
    requires Detect(n, base, maxIter).value !in Appearances(Detections(base, maxIter, n - 1))
    ensures |Appearances(Detections(base, maxIter, n - 1))| < LabelCount
    ensures cl.patterns[n - 1] == LabelAt(|Appearances(Detections(base, maxIter, n - 1))|)
  {
    var c := Detect(n, base, maxIter).value;
    var prev := Appearances(Detections(base, maxIter, n - 1));
    var order := Order(nMax, base, maxIter);
    FirstAppearance(nMax, base, maxIter, n);
    assert HasPattern(cl.patterns[n - 1], Detect(n, base, maxIter), cl.cycleToLabel);
    assert cl.cycleToLabel[order[|prev|]] == LabelAt(|prev|);
  }

  /** A cycle first met at start value n sits in the order right after the cycles met before n. */
  lemma FirstAppearance(nMax: int, base: nat, maxIter: nat, n: nat)
    requires base >= 2 && 1 <= n <= Count(nMax)
    requires Detect(n, base, maxIter).Some?
    requires Detect(n, base, maxIter).value !in Appearances(Detections(base, maxIter, n - 1))
    ensures var prev := Appearances(Detections(base, maxIter, n - 1));
      |prev| < |Order(nMax, base, maxIter)| && Order(nMax, base, maxIter)[|prev|] == Detect(n, base, maxIter).value
  {
    var all := Detections(base, maxIter, Count(nMax));
    var k := n - 1;
    assert all[..k] == Detections(base, maxIter, k) by {
      DetectionsPrefix(base, maxIter, k, Count(nMax));
    }
    assert all[k] == Detect(k + 1, base, maxIter) by {
      DetectionsAt(base, maxIter, Count(nMax), k);
    }
    AppearancesFirst(all, k);
  }

  /** A result that is new after the first k sits in the first appearances right after theirs. */
  lemma AppearancesFirst(ds: seq<Option<seq<nat>>>, k: nat)
    requires k < |ds| && ds[k].Some? && ds[k].value !in Appearances(ds[..k])
    ensures |Appearances(ds[..k])| < |Appearances(ds)|
    ensures Appearances(ds)[|Appearances(ds[..k])|] == ds[k].value
  {
    var prev := Appearances(ds[..k]);
    assert ds[..k + 1][..k] == ds[..k];
    assert Appearances(ds[..k + 1]) == prev + [ds[k].value];
    AppearancesPrefix(ds, k + 1);
    assert Appearances(ds)[..|prev| + 1] == prev + [ds[k].value];
  }

  /** Two table pairs for the same cycles are the same tables. */
  lemma TablesDetermined(c2l1: map<seq<nat>, string>, l2c1: map<string, seq<nat>>,
                         c2l2: map<seq<nat>, string>, l2c2: map<string, seq<nat>>, order: seq<seq<nat>>)
    requires LabelTable(c2l1, l2c1, order) && LabelTable(c2l2, l2c2, order)
    ensures c2l1 == c2l2 && l2c1 == l2c2
  {
    assert c2l1 == c2l2 by {
      forall c | c in c2l1
        ensures c2l1[c] == c2l2[c]
      {
        assert c in Elems(order);
        var j :| 0 <= j < |order| && order[j] == c;
      }
      assert c2l1.Keys == c2l2.Keys;
    }
    assert l2c1 == l2c2 by {
      var labels := LabelsUpTo(|order|);
      forall l | l in l2c1
        ensures l2c1[l] == l2c2[l]
      {
        assert l in Elems(labels);
        var j :| 0 <= j < |labels| && labels[j] == l;
      }
      assert l2c1.Keys == l2c2.Keys;
    }
  }

  /** The outcome of a run is determined by N, the base and the bound. */
  lemma ClassificationDeterministic(cl1: Classification, cl2: Classification, nMax: int, base: nat, maxIter: nat)
    requires base >= 2
    requires ClassifiedAs(cl1, nMax, base, maxIter) && ClassifiedAs(cl2, nMax, base, maxIter)
    ensures cl1 == cl2
  {
    TablesDetermined(cl1.cycleToLabel, cl1.labelToCycle, cl2.cycleToLabel, cl2.labelToCycle,
                     Order(nMax, base, maxIter));
    assert cl1.patterns == cl2.patterns by {
      forall i | 0 <= i < |cl1.patterns|
        ensures cl1.patterns[i] == cl2.patterns[i]
      {
      }
    }
  }

  /** With no rounds allowed nothing repeats: no start value has a cycle. */
  lemma {:induction false} NoRoundsNoCycles(base: nat, k: nat)
    requires base >= 2
    ensures Appearances(Detections(base, 0, k)) == []
  {
    if k > 0 {
      NoRoundsNoCycles(base, k - 1);
      DetectSound(k, base, 0);
      var ds := Detections(base, 0, k);
      assert ds[..k - 1] == Detections(base, 0, k - 1);
    }
  }

  /** With bound 0 every start value is "other" and both tables are empty. */
  lemma NoRoundsScenario(cl: Classification, nMax: int, base: nat)
    requires base >= 2 && ClassifiedAs(cl, nMax, base, 0)
    ensures forall i :: 0 <= i < |cl.patterns| ==> cl.patterns[i] == Other
    ensures cl.cycleToLabel == map[] && cl.labelToCycle == map[]
  {
    NoRoundsNoCycles(base, Count(nMax));
    forall i | 0 <= i < |cl.patterns|
      ensures cl.patterns[i] == Other
    {
      DetectSound(i + 1, base, 0);
    }
    assert Elems(LabelsUpTo(0)) == {};
  }

  /** Base 2, start values 1..3, any bound from 3 on (100 in the programs): the only cycle met is [1]. */
  lemma BinaryClusterOrder(maxIter: nat)
    requires maxIter >= 3
    ensures Order(3, 2, maxIter) == [[1]]
  {
    var one: seq<nat> := [1];
    BinaryConvergence(1, maxIter);
    BinaryConvergence(2, maxIter);
    BinaryConvergence(3, maxIter);
    var s1: seq<Option<seq<nat>>> := [Some(one)];
    assert Appearances(s1) == [one] by {
      assert s1[..0] == [];
    }
    var s2 := s1 + [Some(one)];
    assert Appearances(s2) == [one] by {
      assert s2[..1] == s1;
    }
    var s3 := s2 + [Some(one)];
    assert Appearances(s3) == [one] by {
      assert s3[..2] == s2;
    }
    assert Detections(2, maxIter, 1) == s1;
    assert Detections(2, maxIter, 2) == s2;
    assert Detections(2, maxIter, 3) == s3;
  }

  /** The first label is "a", and it is the only label among the first one. */
  lemma FirstLabel()
    ensures LabelAt(0) == "a"
    ensures LabelsUpTo(1) == ["a"] && Elems(LabelsUpTo(1)) == {"a"}
  {
    assert GetLabel(0) == Some("a");
    assert LabelsUpTo(1) == ["a"];
  }

  /**
   * Base 2, N = 3, any bound from 3 on (so also the programs' 100): all three start values reach the fixed point
   * 1, so all get the label "a", the only entry of both tables.
   */
  lemma BinaryClusterScenario(cl: Classification, maxIter: nat)
    requires maxIter >= 3 && ClassifiedAs(cl, 3, 2, maxIter)
    ensures cl.patterns == ["a", "a", "a"]
    ensures cl.cycleToLabel == map[[1] := "a"] && cl.labelToCycle == map["a" := [1]]
  {
    var one: seq<nat> := [1];
    assert cl.cycleToLabel == map[one := "a"] && cl.labelToCycle == map["a" := one] by {
      BinaryClusterOrder(maxIter);
      FirstLabel();
      assert Elems([one]) == {one};
      TablesDetermined(cl.cycleToLabel, cl.labelToCycle, map[one := "a"], map["a" := one], [one]);
    }
    forall i | 0 <= i < 3
      ensures cl.patterns[i] == "a"
    {
      assert Detect(i + 1, 2, maxIter) == Some(one) by {
        BinaryConvergence(i + 1, maxIter);
      }
    }
  }
}
