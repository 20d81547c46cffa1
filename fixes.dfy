/**
  The fix descriptors a rule returns: an `edit` that replaces an anchor
  segment by new segments, or a `delete` of an anchor segment, bundled with
  the segment the diagnostic is reported on.
 */
module Fixes {
  import opened SegmentTree

  /**
    One fix. Its anchor is the position of the anchored segment among the
    children of the segment the rule evaluated, so two fixes anchor the same
    segment exactly when their anchors are equal.
   */
  datatype LintFix =
    | Edit(anchor: nat, edit: seq<Segment>)
    | Delete(anchor: nat)

  /** `LintResult(anchor=..., fixes=...)`. */
  datatype LintResult = LintResult(anchor: Segment, fixes: seq<LintFix>)

  /** No two fixes of the list anchor the same segment. */
  predicate AnchorsDistinct(fixes: seq<LintFix>) {
    forall i, j :: 0 <= i < j < |fixes| ==> fixes[i].anchor != fixes[j].anchor
  }

  /** Every fix anchors one of the `n` children of the evaluated segment. */
  predicate AnchorsWithin(fixes: seq<LintFix>, n: nat) {
    forall i :: 0 <= i < |fixes| ==> fixes[i].anchor < n
  }

  /** One `delete` per position, in the order given. */
  function Deletes(ws: seq<nat>): (r: seq<LintFix>)
    ensures |r| == |ws|
    ensures forall k :: 0 <= k < |ws| ==> r[k] == Delete(ws[k])
  {
    if ws == [] then [] else [Delete(ws[0])] + Deletes(ws[1..])
  }
}
