/**
  Rule AL01: the aliasing of a table in a FROM or MERGE clause follows the
  `aliasing` preference. With "implicit" a leading `AS` is removed; with any
  other value a missing `AS` is inserted. The respacing fixes that go with
  either action are not modelled: the result names the action only.
 */
module AliasingTableRule {
  import opened Wrappers
  import opened SegmentTree

  const AliasExpression := "alias_expression"
  const Implicit := "implicit"

  /** `_target_elems`: the parent types under which an alias is checked. */
  const TargetElems: seq<(string, string)> :=
    [("type", "from_expression_element"), ("type", "merge_statement")]

  /** `matches_target_tuples(seg, targets)` for `("type", t)` tuples. */
  predicate MatchesTargetTuples(seg: Segment, targets: seq<(string, string)>) {
    exists i :: 0 <= i < |targets| && targets[i].0 == "type" && IsType(seg, targets[i].1)
  }

  /** The parent matches `_target_elems` exactly when it is one of the two target types. */
  lemma TargetElemsMatch(parent: Segment)
    ensures MatchesTargetTuples(parent, TargetElems) <==>
              parent.kind == "from_expression_element" || parent.kind == "merge_statement"
  {
    if parent.kind == "from_expression_element" {
      assert TargetElems[0].0 == "type" && IsType(parent, TargetElems[0].1);
    }
    if parent.kind == "merge_statement" {
      assert TargetElems[1].0 == "type" && IsType(parent, TargetElems[1].1);
    }
  }

  /** The action the reflow fixes would carry out. */
  datatype AliasFix =
    /** Remove the child at this position (always the leading `AS`). */
    | RemoveAs(index: nat)
    /** Insert a new keyword with this text before the `target` raw segment. */
    | InsertKeywordBefore(target: Segment, keyword: string)

  /** `LintResult(anchor=..., fixes=...)` with the fixes abstracted to their action. */
  datatype AliasResult = AliasResult(anchor: Segment, fix: AliasFix)

  /** Evaluating raises: `raw_segments[0]` of a node with no raw segment below it. */
  datatype EvalError = NoRawSegment

  /** Some child of the alias expression reads `AS` in any letter case. */
  predicate HasAs(s: Segment) {
    exists i :: 0 <= i < |s.Segments()| && RawUpper(s.Segments()[i]) == "AS"
  }

  /** The first child of the alias expression reads `AS` in any letter case. */
  predicate LeadingAs(s: Segment) {
    |s.Segments()| > 0 && RawUpper(s.Segments()[0]) == "AS"
  }

  /**
    `Rule_AL01._eval` on an alias expression with immediate parent `parent`
    and the configured `aliasing`.
   */
  function Eval(segment: Segment, parent: Segment, aliasing: string): (r: Result<Option<AliasResult>, EvalError>)
    requires IsType(segment, AliasExpression)
    ensures !MatchesTargetTuples(parent, TargetElems) ==> r == Ok(None)
    ensures (r.Ok? && r.value.Some? && r.value.value.fix.RemoveAs?) <==>
              MatchesTargetTuples(parent, TargetElems) && aliasing == Implicit && LeadingAs(segment)
    ensures r.Ok? && r.value.Some? && r.value.value.fix.RemoveAs? ==>
              r.value.value.fix.index == 0 && r.value.value.anchor == segment.Segments()[0]
    ensures (r.Ok? && r.value.Some? && r.value.value.fix.InsertKeywordBefore?) <==>
              MatchesTargetTuples(parent, TargetElems) && aliasing != Implicit && !HasAs(segment)
              && |RawSegments(segment)| > 0
    ensures r.Ok? && r.value.Some? && r.value.value.fix.InsertKeywordBefore? ==>
              r.value.value.anchor == segment
              && r.value.value.fix == InsertKeywordBefore(RawSegments(segment)[0], "AS")
    ensures r.Err? <==>
              MatchesTargetTuples(parent, TargetElems) && aliasing != Implicit && !HasAs(segment)
              && RawSegments(segment) == []
  {
    if MatchesTargetTuples(parent, TargetElems) then
      if HasAs(segment) then
        if aliasing == Implicit && RawUpper(segment.Segments()[0]) == "AS" then
          Ok(Some(AliasResult(segment.Segments()[0], RemoveAs(0))))
        else Ok(None)
      else if aliasing != Implicit then
        var raws := RawSegments(segment);
        if raws == [] then Err(NoRawSegment)
        else Ok(Some(AliasResult(segment, InsertKeywordBefore(raws[0], "AS"))))
      else Ok(None)
    else Ok(None)
  }

  /**
    The rule only reports an alias that breaks the preference: under
    "implicit" one that has an `AS`, under any other preference one that has
    none.
   */
  lemma ReportsOnlyViolations(segment: Segment, parent: Segment, aliasing: string)
    requires IsType(segment, AliasExpression)
    requires Eval(segment, parent, aliasing).Ok? && Eval(segment, parent, aliasing).value.Some?
    ensures aliasing == Implicit ==> HasAs(segment)
    ensures aliasing != Implicit ==> !HasAs(segment)
  {
    if aliasing == Implicit {
      assert LeadingAs(segment);
      assert RawUpper(segment.Segments()[0]) == "AS";
    }
  }

  /**
    Under "implicit", an `AS` that is present but not the first child is left
    alone.
   */
  lemma ImplicitNonLeadingAsIgnored(segment: Segment, parent: Segment)
    requires IsType(segment, AliasExpression)
    requires HasAs(segment) && RawUpper(segment.Segments()[0]) != "AS"
    ensures Eval(segment, parent, Implicit) == Ok(None)
  {
  }

  /**
    An alias that already has an `AS` is never reported under a preference
    other than "implicit": the `elif` belongs to the test for `AS`, not to
    the test of the preference.
   */
  lemma ExplicitWithAsAccepted(segment: Segment, parent: Segment, aliasing: string)
    requires IsType(segment, AliasExpression)
    requires aliasing != Implicit && HasAs(segment)
    ensures Eval(segment, parent, aliasing) == Ok(None)
  {
  }

  /**
    The inserted keyword goes before the first raw segment of the alias
    expression: a raw segment whose text starts the alias expression's text,
    the first of its children's raw segments joined in order, and so the
    first raw segment of its first child when that child has one.
   */
  lemma InsertTargetIsFirstRaw(segment: Segment, parent: Segment, aliasing: string)
    requires IsType(segment, AliasExpression)
    requires Eval(segment, parent, aliasing).Ok? && Eval(segment, parent, aliasing).value.Some?
    requires Eval(segment, parent, aliasing).value.value.fix.InsertKeywordBefore?
    ensures var t := Eval(segment, parent, aliasing).value.value.fix.target;
            t.Leaf? && t.text <= Raw(segment)
            && (segment.Node? ==> |JoinRawSegments(segment.children)| > 0
                                  && t == JoinRawSegments(segment.children)[0])
            && (segment.Node? && |segment.children| > 0 && |RawSegments(segment.children[0])| > 0
                ==> t == RawSegments(segment.children[0])[0])
  {
    RawStartsWithFirstRawSegment(segment);
    if segment.Node? {
      RawSegmentsNode(segment);
    }
    if segment.Node? && |segment.children| > 0 {
      FirstRawSegmentDescends(segment);
    }
  }

  /** Some child counts as `AS` exactly when its text is `AS` in some letter case. */
  lemma HasAsAnyCase(segment: Segment)
    ensures HasAs(segment) <==>
              exists i :: 0 <= i < |segment.Segments()| && Raw(segment.Segments()[i]) in {"AS", "As", "aS", "as"}
  {
    forall i | 0 <= i < |segment.Segments()| {
      UpperIsAs(Raw(segment.Segments()[i]));
    }
  }

  /** The leading child counts as `AS` in any letter case of its text. */
  lemma LeadingAsAnyCase(segment: Segment)
    requires |segment.Segments()| > 0
    ensures LeadingAs(segment) <==> Raw(segment.Segments()[0]) in {"AS", "As", "aS", "as"}
  {
    UpperIsAs(Raw(segment.Segments()[0]));
  }
}
