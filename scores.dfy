/** UCB scores as the search compares them, and the first-best choice among
    a list of scores that both the child selection and the final decision use. */
module Scores {

  /** A UCB score: an unvisited node scores plus or minus infinity, a visited
      one a finite value. */
  datatype Score = NegInf | Finite(x: real) | PosInf

  /** The strict order `a < b` of the source's floating point comparison,
      with -inf below every finite value and +inf above. */
  predicate Below(a: Score, b: Score) {
    match a
    case NegInf => !b.NegInf?
    case Finite(x) => b.PosInf? || (b.Finite? && x < b.x)
    case PosInf => false
  }

  /** `cand` beats `cur`: strictly larger when maximizing, strictly smaller
      when minimizing. */
  predicate Beats(cand: Score, cur: Score, maximize: bool) {
    if maximize then Below(cur, cand) else Below(cand, cur)
  }

  lemma BelowIsStrictTotalOrder(a: Score, b: Score, c: Score)
    ensures !Below(a, a)
    ensures Below(a, b) ==> !Below(b, a)
    ensures Below(a, b) && Below(b, c) ==> Below(a, c)
    ensures a != b ==> Below(a, b) || Below(b, a)
  {
  }

  /** The index of the first best score: no score beats it, and it beats
      every score before it. */
  function FirstBest(s: seq<Score>, maximize: bool): (k: nat)
    requires |s| > 0
    ensures k < |s|
    ensures forall j :: 0 <= j < |s| ==> !Beats(s[j], s[k], maximize)
    ensures forall j :: 0 <= j < k ==> Beats(s[k], s[j], maximize)
  {
    if |s| == 1 then 0
    else
      var k := FirstBest(s[..|s| - 1], maximize);
      var last := |s| - 1;
      if Beats(s[last], s[k], maximize) then
        forall j | 0 <= j < last ensures Beats(s[last], s[j], maximize) {
          BelowIsStrictTotalOrder(s[j], s[k], s[last]);
          BelowIsStrictTotalOrder(s[last], s[k], s[j]);
        }
        last
      else
        forall j | 0 <= j < |s| ensures !Beats(s[j], s[k], maximize) {
          BelowIsStrictTotalOrder(s[j], s[k], s[last]);
          BelowIsStrictTotalOrder(s[k], s[last], s[j]);
        }
        k
  }

  /** The two properties of FirstBest pin down a single index. */
  lemma {:induction false} FirstBestUnique(s: seq<Score>, maximize: bool, k: nat)
    requires k < |s|
    requires forall j :: 0 <= j < |s| ==> !Beats(s[j], s[k], maximize)
    requires forall j :: 0 <= j < k ==> Beats(s[k], s[j], maximize)
    ensures FirstBest(s, maximize) == k
  {
  }

  /** The scan of findHighestUCBILeaf (and of makeChoice, which always
      maximizes): start at index 0 and move to a later index only when its
      score is strictly better. */
  method ArgBest(scores: seq<Score>, maximize: bool) returns (favorite: nat)
    requires |scores| > 0
    ensures favorite == FirstBest(scores, maximize)
  {
    favorite := 0;
    var best := scores[0];
    for childNum := 0 to |scores|
      invariant favorite < |scores| && best == scores[favorite]
      invariant favorite <= childNum
      invariant forall j :: 0 <= j < childNum ==> !Beats(scores[j], best, maximize)
      invariant forall j :: 0 <= j < favorite ==> Beats(best, scores[j], maximize)
    {
      if Beats(scores[childNum], best, maximize) {
        forall j | 0 <= j < childNum ensures Beats(scores[childNum], scores[j], maximize) {
          BelowIsStrictTotalOrder(scores[j], best, scores[childNum]);
          BelowIsStrictTotalOrder(scores[childNum], best, scores[j]);
        }
        favorite := childNum;
        best := scores[childNum];
      }
    }
    FirstBestUnique(scores, maximize, favorite);
  }
}
