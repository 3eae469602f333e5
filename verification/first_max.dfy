/** The first-wins running maximum both searches use: a left-to-right scan that
    starts from a zero-scored placeholder and replaces its current best only by
    a strictly larger score. */
module FirstMax {

  import opened Records

  /** The position the scan ends on, or `None` when no score beat the
      placeholder's zero.  The four ensures together say: the FIRST position
      holding the largest score, provided that score is positive. */
  function Scan(scores: seq<int>): (r: Option<nat>)
    decreases |scores|
    ensures r.None? <==> forall i :: 0 <= i < |scores| ==> scores[i] <= 0
    ensures r.Some? ==> r.value < |scores| && scores[r.value] > 0
    ensures r.Some? ==> forall i :: 0 <= i < |scores| ==> scores[i] <= scores[r.value]
    ensures r.Some? ==> forall i :: 0 <= i < r.value ==> scores[i] < scores[r.value]
  {
    if |scores| == 0 then None
    else
      var prev := Scan(scores[..|scores| - 1]);
      var best := if prev.None? then 0 else scores[prev.value];
      if scores[|scores| - 1] > best then Some(|scores| - 1) else prev
  }

  /** The score the scan ends with: the placeholder's zero or the winner's score. */
  function Best(scores: seq<int>): (b: int)
    ensures b >= 0
    ensures forall i :: 0 <= i < |scores| ==> scores[i] <= b
    ensures b == 0 || b in scores
  {
    var r := Scan(scores);
    if r.None? then 0 else scores[r.value]
  }

  /** The characterisation in `Scan`'s contract singles out one position:
      any position meeting it is the one the scan returns. */
  lemma ScanIsFirstMaximum(scores: seq<int>, k: nat)
    requires k < |scores| && scores[k] > 0
    requires forall i :: 0 <= i < |scores| ==> scores[i] <= scores[k]
    requires forall i :: 0 <= i < k ==> scores[i] < scores[k]
    ensures Scan(scores) == Some(k)
  {
    var r := Scan(scores);
    assert r.Some? by { assert scores[k] > 0; }
  }

  /** The best score depends only on which positive scores occur, not on
      their positions or repetitions. */
  lemma BestDependsOnlyOnValues(s1: seq<int>, s2: seq<int>)
    requires forall i :: 0 <= i < |s1| && s1[i] > 0 ==> s1[i] in s2
    requires forall j :: 0 <= j < |s2| && s2[j] > 0 ==> s2[j] in s1
    ensures Best(s1) == Best(s2)
  {
    var b1, b2 := Best(s1), Best(s2);
    if b1 != 0 {
      var i :| 0 <= i < |s1| && s1[i] == b1;
      assert b1 in s2;
    }
    if b2 != 0 {
      var j :| 0 <= j < |s2| && s2[j] == b2;
      assert b2 in s1;
    }
  }
}
