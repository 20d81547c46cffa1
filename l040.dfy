/**
  Rule L040: a select clause modifier such as DISTINCT must be on the same
  line as SELECT. When the clause's first newline comes before its modifier,
  the fixes move the modifier in front of that newline and delete the meta
  whitespace children that follow the modifier up to the first non-meta
  child (a non-meta whitespace child stops that scan itself).
 */
module SelectModifierRule {
  import opened Wrappers
  import opened SegmentTree
  import opened Fixes

  const SelectClause := "select_clause"
  const Modifier := "select_clause_modifier"
  const Newline := "newline"
  const Whitespace := "whitespace"

  /**
    The way `_eval` fails: a clause with a modifier but no newline child
    makes `segments.index(None)` raise.
   */
  datatype EvalError = NewlineNotFound

  /** `collect_if` of the whitespace scan: the child is whitespace. */
  predicate IsWhitespace(s: Segment) {
    IsType(s, Whitespace)
  }

  /** `stop_on` of the whitespace scan: the child is not a meta segment. */
  predicate IsContent(s: Segment) {
    !s.isMeta
  }

  /**
    The whitespace children deleted after the modifier at position `m`:
    the whitespace children after `m`, up to the first non-meta child.
   */
  function WhitespaceToDelete(cs: seq<Segment>, m: nat): seq<nat>
    requires m < |cs|
  {
    SelectChildren(cs, m, IsWhitespace, IsContent)
  }

  /**
    The replacement for the newline at position `nl`: a single space, the
    modifier itself, then a new newline; both new segments take the
    newline's position marker.
   */
  function ReplacementFor(cs: seq<Segment>, nl: nat, m: nat, classes: LeafClasses): seq<Segment>
    requires nl < |cs| && m < |cs|
  {
    [MakeWhitespace(" ", cs[nl].pos, classes), cs[m], MakeNewline(cs[nl].pos, classes)]
  }

  /** The fix list for a modifier at `m` that follows the newline at `nl`. */
  function MoveModifierFixes(cs: seq<Segment>, nl: nat, m: nat, classes: LeafClasses): seq<LintFix>
    requires nl < |cs| && m < |cs|
  {
    [Edit(nl, ReplacementFor(cs, nl, m, classes)), Delete(m)] + Deletes(WhitespaceToDelete(cs, m))
  }

  /**
    `Rule_L040._eval`. A segment that is not a select clause, or a select
    clause without a modifier, gives no result; a clause with a modifier but
    no newline raises; otherwise the clause is reported, with the fixes,
    exactly when its first newline comes before its first modifier.
   */
  function Eval(segment: Segment, classes: LeafClasses): (r: Result<Option<LintResult>, EvalError>)
    ensures !IsType(segment, SelectClause) ==> r == Ok(None)
    ensures NoneOfType(segment.Segments(), Modifier) ==> r == Ok(None)
    ensures r.Err? <==>
              IsType(segment, SelectClause) && !NoneOfType(segment.Segments(), Modifier)
              && NoneOfType(segment.Segments(), Newline)
    ensures forall m, nl ::
              IsType(segment, SelectClause)
              && IsFirstOfType(segment.Segments(), m, Modifier)
              && IsFirstOfType(segment.Segments(), nl, Newline)
              ==> r.Ok? && (r.value.Some? <==> nl < m)
    ensures r.Ok? && r.value.Some? ==> r.value.value.anchor == segment
  {
    if !IsType(segment, SelectClause) then Ok(None)
    else
      var cs := segment.Segments();
      match GetChild(segment, Modifier)
      case None => Ok(None)
      case Some(m) =>
        match GetChild(segment, Newline)
        case None => Err(NewlineNotFound)
        case Some(nl) =>
          if nl < m then Ok(Some(LintResult(segment, MoveModifierFixes(cs, nl, m, classes))))
          else Ok(None)
  }

  /** The clause is a select clause whose first newline precedes its first modifier. */
  predicate Violation(segment: Segment, nl: nat, m: nat) {
    IsType(segment, SelectClause)
    && IsFirstOfType(segment.Segments(), m, Modifier)
    && IsFirstOfType(segment.Segments(), nl, Newline)
    && nl < m
  }

  /** On a violation, the result is the clause with exactly the move-modifier fixes. */
  lemma ViolationResult(segment: Segment, classes: LeafClasses, nl: nat, m: nat)
    requires Violation(segment, nl, m)
    ensures Eval(segment, classes)
            == Ok(Some(LintResult(segment, MoveModifierFixes(segment.Segments(), nl, m, classes))))
  {
    var cs := segment.Segments();
    FirstOfTypeUnique(cs, GetChild(segment, Modifier).value, m, Modifier);
    FirstOfTypeUnique(cs, GetChild(segment, Newline).value, nl, Newline);
  }

  /**
    On a violation the first fix edits the newline into a space, the original
    modifier and a new newline, both new segments carrying the newline's
    position marker; the second deletes the modifier; every later fix is a
    delete.
   */
  lemma ViolationFixList(segment: Segment, classes: LeafClasses, nl: nat, m: nat)
    requires Violation(segment, nl, m)
    ensures var r := Eval(segment, classes);
            var cs := segment.Segments();
            r.Ok? && r.value.Some? && r.value.value.anchor == segment
            && var fixes := r.value.value.fixes;
            |fixes| == 2 + |WhitespaceToDelete(cs, m)|
            && fixes[0].Edit? && fixes[0].anchor == nl && |fixes[0].edit| == 3
            && fixes[0].edit[0] == MakeWhitespace(" ", cs[nl].pos, classes)
            && fixes[0].edit[2] == MakeNewline(cs[nl].pos, classes)
            && fixes[0].edit[0].Leaf? && IsType(fixes[0].edit[0], Whitespace)
            && Raw(fixes[0].edit[0]) == " " && fixes[0].edit[0].pos == cs[nl].pos
            && fixes[0].edit[1] == cs[m]
            && fixes[0].edit[2].Leaf? && IsType(fixes[0].edit[2], Newline)
            && Raw(fixes[0].edit[2]) == "\n" && fixes[0].edit[2].pos == cs[nl].pos
            && fixes[1] == Delete(m)
            && forall k :: 2 <= k < |fixes| ==> fixes[k] == Delete(WhitespaceToDelete(cs, m)[k - 2])
  {
    ViolationResult(segment, classes, nl, m);
    var cs := segment.Segments();
  }

  /**
    The fixes after the second delete exactly the whitespace children after
    the modifier that are reached before the first non-meta child (so each of
    them is itself meta), in source order: each deleted child is such a
    whitespace child, and each such whitespace child is deleted.
   */
  lemma ViolationDeletesWhitespaceRun(segment: Segment, classes: LeafClasses, nl: nat, m: nat)
    requires Violation(segment, nl, m)
    ensures var cs := segment.Segments();
            var fixes := Eval(segment, classes).value.value.fixes;
            (forall k :: 2 <= k < |fixes| ==>
               fixes[k].Delete? && m < fixes[k].anchor < |cs| && IsWhitespace(cs[fixes[k].anchor])
               && Unstopped(cs, m + 1, fixes[k].anchor, IsContent))
            && (forall j :: m < j < |cs| && IsWhitespace(cs[j]) && Unstopped(cs, m + 1, j, IsContent) ==>
                  exists k :: 2 <= k < |fixes| && fixes[k] == Delete(j))
            && (forall a, b :: 2 <= a < b < |fixes| ==> fixes[a].anchor < fixes[b].anchor)
  {
    ViolationFixList(segment, classes, nl, m);
    var cs := segment.Segments();
    var fixes := Eval(segment, classes).value.value.fixes;
    var ws := WhitespaceToDelete(cs, m);
    forall k | 2 <= k < |fixes|
      ensures fixes[k].Delete? && m < fixes[k].anchor < |cs| && IsWhitespace(cs[fixes[k].anchor])
              && Unstopped(cs, m + 1, fixes[k].anchor, IsContent)
    {
      assert fixes[k].anchor == ws[k - 2] && ws[k - 2] in ws;
    }
    forall a, b | 2 <= a < b < |fixes| ensures fixes[a].anchor < fixes[b].anchor {
      assert ws[a - 2] < ws[b - 2];
    }
    forall j | m < j < |cs| && IsWhitespace(cs[j]) && Unstopped(cs, m + 1, j, IsContent)
      ensures exists k :: 2 <= k < |fixes| && fixes[k] == Delete(j)
    {
      assert j in ws;
      var i :| 0 <= i < |ws| && ws[i] == j;
      assert fixes[i + 2] == Delete(j);
    }
  }

  /**
    The fix anchors are pairwise distinct children of the clause: the newline
    comes before the modifier, which comes before every deleted whitespace
    child.
   */
  lemma ViolationAnchorsDistinct(segment: Segment, classes: LeafClasses, nl: nat, m: nat)
    requires Violation(segment, nl, m)
    ensures var fixes := Eval(segment, classes).value.value.fixes;
            fixes[0].anchor == nl && fixes[1].anchor == m
            && (forall k :: 2 <= k < |fixes| ==> m < fixes[k].anchor)
            && AnchorsDistinct(fixes) && AnchorsWithin(fixes, |segment.Segments()|)
  {
    ViolationResult(segment, classes, nl, m);
    MoveModifierAnchorsIncrease(segment.Segments(), nl, m, classes);
  }

  /** The anchors of the move-modifier fixes strictly increase and stay among the children. */
  lemma MoveModifierAnchorsIncrease(cs: seq<Segment>, nl: nat, m: nat, classes: LeafClasses)
    requires nl < m < |cs|
    ensures var fixes := MoveModifierFixes(cs, nl, m, classes);
            fixes[0].anchor == nl && fixes[1].anchor == m
            && (forall k :: 2 <= k < |fixes| ==> m < fixes[k].anchor)
            && AnchorsDistinct(fixes) && AnchorsWithin(fixes, |cs|)
  {
    var ws := WhitespaceToDelete(cs, m);
    assert StrictlyIncreasing(ws) && forall k :: 0 <= k < |ws| ==> m < ws[k] < |cs|;
    EditDeleteDeletesIncrease(nl, ReplacementFor(cs, nl, m, classes), m, ws, |cs|);
  }

  /**
    An edit at `nl`, a delete at `m` and deletes at increasing positions
    beyond `m` anchor pairwise distinct positions below `n`.
   */
  lemma EditDeleteDeletesIncrease(nl: nat, edit: seq<Segment>, m: nat, ws: seq<nat>, n: nat)
    requires nl < m < n && StrictlyIncreasing(ws)
    requires forall k :: 0 <= k < |ws| ==> m < ws[k] < n
    ensures var fixes := [Edit(nl, edit), Delete(m)] + Deletes(ws);
            (forall k :: 2 <= k < |fixes| ==> m < fixes[k].anchor)
            && AnchorsDistinct(fixes) && AnchorsWithin(fixes, n)
  {
    var tail := Deletes(ws);
    var fixes := [Edit(nl, edit), Delete(m)] + tail;
    forall k | 2 <= k < |fixes| ensures fixes[k].anchor == ws[k - 2] {
      assert fixes[k] == tail[k - 2];
    }
    forall i, j | 0 <= i < j < |fixes| ensures fixes[i].anchor < fixes[j].anchor {
      if i >= 2 {
        assert ws[i - 2] < ws[j - 2];
      }
    }
  }

  /** No fix anchors a child at or after the first non-meta child following the modifier. */
  lemma ViolationStopsAtContent(segment: Segment, classes: LeafClasses, nl: nat, m: nat, s: nat)
    requires Violation(segment, nl, m)
    requires m < s < |segment.Segments()| && IsContent(segment.Segments()[s])
    ensures var fixes := Eval(segment, classes).value.value.fixes;
            forall k :: 0 <= k < |fixes| ==> fixes[k].anchor < s
  {
    ViolationFixList(segment, classes, nl, m);
    SelectChildrenStopsAtStop(segment.Segments(), m, IsWhitespace, IsContent, s);
  }

  /**
    When the child right after the modifier is not a meta segment (as any
    whitespace child is when the whitespace class is not meta), the scan
    stops at once and the fix list is just the edit of the newline and the
    delete of the modifier.
   */
  lemma ContentAfterModifierDeletesNoWhitespace(segment: Segment, classes: LeafClasses, nl: nat, m: nat)
    requires Violation(segment, nl, m)
    requires m + 1 < |segment.Segments()| && !segment.Segments()[m + 1].isMeta
    ensures Eval(segment, classes).value.value.fixes
            == [Edit(nl, ReplacementFor(segment.Segments(), nl, m, classes)), Delete(m)]
  {
    ViolationStopsAtContent(segment, classes, nl, m, m + 1);
    ViolationAnchorsDistinct(segment, classes, nl, m);
  }

  /**
    The clause of `select\n    distinct a, b\n`: the whitespace and newline
    children take their meta flag from their classes in `classes`, as the
    synthetic leaves do; every other child is content.
   */
  function ExampleClause(classes: LeafClasses): Segment {
    var wsMeta := classes.whitespaceIsMeta;
    var nlMeta := classes.newlineIsMeta;
    Node(SelectClause, [
      Leaf("keyword", "select", Some(Position(0, 1, 1)), false),
      Leaf(Newline, "\n", Some(Position(6, 1, 7)), nlMeta),
      Leaf(Whitespace, "    ", Some(Position(7, 2, 1)), wsMeta),
      Leaf(Modifier, "distinct", Some(Position(11, 2, 5)), false),
      Leaf(Whitespace, " ", Some(Position(19, 2, 13)), wsMeta),
      Leaf("identifier", "a", Some(Position(20, 2, 14)), false),
      Leaf("comma", ",", Some(Position(21, 2, 15)), false),
      Leaf(Whitespace, " ", Some(Position(22, 2, 16)), wsMeta),
      Leaf("identifier", "b", Some(Position(23, 2, 17)), false),
      Leaf(Newline, "\n", Some(Position(24, 2, 18)), nlMeta)
    ], Some(Position(0, 1, 1)), false)
  }

  /**
    On the example, the newline at position 1 becomes ` distinct\n` and the
    modifier at position 3 is deleted; the space after it (position 4) is
    deleted too exactly when whitespace is meta, and the comma and what
    follows it are never touched.
   */
  lemma ExampleFixes(classes: LeafClasses)
    ensures var c := ExampleClause(classes);
            var nlPos := Some(Position(6, 1, 7));
            Eval(c, classes) == Ok(Some(LintResult(c,
              [Edit(1, [MakeWhitespace(" ", nlPos, classes), c.children[3], MakeNewline(nlPos, classes)]),
               Delete(3)]
              + (if classes.whitespaceIsMeta then [Delete(4)] else []))))
  {
    var wsMeta := classes.whitespaceIsMeta;
    var c := ExampleClause(classes);
    var cs := c.children;
    assert cs[0].kind == "keyword" && cs[1].kind == Newline && cs[2].kind == Whitespace;
    assert cs[3].kind == Modifier && cs[4].kind == Whitespace;
    assert IsFirstOfType(cs, 3, Modifier);
    assert IsFirstOfType(cs, 1, Newline);
    ViolationResult(c, classes, 1, 3);
    assert ScanFrom(cs, 5, IsWhitespace, IsContent) == [];
    assert WhitespaceToDelete(cs, 3) == if wsMeta then [4] else [];
    assert Deletes(WhitespaceToDelete(cs, 3)) == if wsMeta then [Delete(4)] else [];
    assert cs[1].pos == Some(Position(6, 1, 7));
  }
}
