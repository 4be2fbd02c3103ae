/**
 * Label encoding: indices 0..25 are the letters a..z; an index i from 26 on
 * is the letter (i / 26) - 1 followed by the letter i % 26, so 26 is "aa"
 * and 52 is "ba". From 702 on the first letter is out of range and both
 * programs fail (a panic in Rust, IndexError in Python).
 */
module Labels {
  import opened Wrappers

  const Letters: string := "abcdefghijklmnopqrstuvwxyz"

  /** Number of indices that have a label: 26 one-letter and 26 * 26 two-letter ones. */
  const LabelCount: nat := 702

  predicate IsLower(c: char)
  {
    'a' <= c <= 'z'
  }

  /** Position of a lower-case letter in the alphabet. */
  function Ord(c: char): nat
    requires IsLower(c)
  {
    c as int - 'a' as int
  }

  lemma LetterAt(i: nat)
    requires i < 26
    ensures IsLower(Letters[i]) && Ord(Letters[i]) == i
  {
  }

  /** `get_label(idx)`; None where the source indexes past the alphabet. */
  function GetLabel(idx: nat): (r: Option<string>)
    ensures r.Some? <==> idx < LabelCount
    ensures r.Some? ==> 1 <= |r.value| <= 2 && forall k :: 0 <= k < |r.value| ==> IsLower(r.value[k])
    ensures r.Some? ==> (|r.value| == 1 <==> idx < 26)
  {
    if idx < 26 then
      LetterAt(idx);
      Some([Letters[idx]])
    else if idx / 26 - 1 < 26 then
      LetterAt(idx / 26 - 1);
      LetterAt(idx % 26);
      Some([Letters[idx / 26 - 1], Letters[idx % 26]])
    else
      None
  }

  /** The decoding partner of GetLabel: the index a label stands for. */
  function LabelIndex(lbl: string): (idx: Option<nat>)
  {
    if |lbl| == 1 && IsLower(lbl[0]) then
      Some(Ord(lbl[0]))
    else if |lbl| == 2 && IsLower(lbl[0]) && IsLower(lbl[1]) then
      Some((Ord(lbl[0]) + 1) * 26 + Ord(lbl[1]))
    else
      None
  }

  /** Every label decodes back to its index. */
  lemma LabelRoundTrip(idx: nat)
    requires idx < LabelCount
    ensures GetLabel(idx).Some? && LabelIndex(GetLabel(idx).value) == Some(idx)
  {
    if idx >= 26 {
      LetterAt(idx / 26 - 1);
      LetterAt(idx % 26);
    } else {
      LetterAt(idx);
    }
  }

  /** The letter at the alphabet position of a lower-case letter is that letter. */
  lemma LetterOf(c: char)
    requires IsLower(c)
    ensures Letters[Ord(c)] == c
  {
    LetterAt(Ord(c));
  }

  /** Division by 26 splits (a * 26 + b) back into a and b. */
  lemma DivMod26(a: nat, b: nat)
    requires b < 26
    ensures (a * 26 + b) / 26 == a && (a * 26 + b) % 26 == b
  {
  }

  /** A one-letter label is the label of its letter's position. */
  lemma OneLetterRoundTrip(lbl: string)
    requires |lbl| == 1 && IsLower(lbl[0])
    ensures GetLabel(Ord(lbl[0])) == Some(lbl)
  {
    LetterOf(lbl[0]);
    assert lbl == [lbl[0]];
  }

  /** A two-letter label is the label of 26 * (first + 1) + second. */
  lemma TwoLetterRoundTrip(lbl: string)
    requires |lbl| == 2 && IsLower(lbl[0]) && IsLower(lbl[1])
    ensures GetLabel((Ord(lbl[0]) + 1) * 26 + Ord(lbl[1])) == Some(lbl)
  {
    var a, b := Ord(lbl[0]), Ord(lbl[1]);
    var idx := (a + 1) * 26 + b;
    DivMod26(a + 1, b);
    assert idx >= 26 && idx / 26 - 1 == a && idx % 26 == b;
    assert GetLabel(idx) == Some([Letters[a], Letters[b]]);
    LetterOf(lbl[0]);
    LetterOf(lbl[1]);
    assert [Letters[a], Letters[b]] == lbl;
  }

  /** Every decodable string is the label of its index. */
  lemma LabelIndexRoundTrip(lbl: string)
    requires LabelIndex(lbl).Some?
    ensures GetLabel(LabelIndex(lbl).value) == Some(lbl)
  {
    if |lbl| == 1 {
      OneLetterRoundTrip(lbl);
    } else {
      TwoLetterRoundTrip(lbl);
    }
  }

  /** Distinct indices below LabelCount get distinct labels. */
  lemma GetLabelInjective(i: nat, j: nat)
    requires i < LabelCount && j < LabelCount
    requires GetLabel(i) == GetLabel(j)
    ensures i == j
  {
    LabelRoundTrip(i);
    LabelRoundTrip(j);
  }

  /** The labels of the first indices, the 26/27 boundary and the last one. */
  lemma LabelExamples()
    ensures GetLabel(0) == Some("a") && GetLabel(25) == Some("z")
    ensures GetLabel(26) == Some("aa") && GetLabel(27) == Some("ab")
    ensures GetLabel(51) == Some("az") && GetLabel(52) == Some("ba")
    ensures GetLabel(701) == Some("zz") && GetLabel(702) == None
  {
  }
}
