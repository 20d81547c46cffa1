# sqlfluff select-modifier and table-aliasing rules, modelled in Dafny

This project models two lint rules of sqlfluff, each deciding from a clause's ordered child segments whether the clause is badly laid out and, if so, what fix to propose.

- **L040** (`select_clause` modifiers such as `DISTINCT` must be on the `SELECT` line). It finds the clause's first `select_clause_modifier` child and first `newline` child. When the newline comes first it returns a lint result anchored at the clause with an ordered fix list:
  1. an `edit` of the newline into `[" ", modifier, "\n"]`;
  2. a `delete` of the modifier;
  3. one `delete` per whitespace child that `select_children` collects after the modifier.
- **AL01** (implicit or explicit table aliasing). Given an `alias_expression`, its immediate parent and the `aliasing` setting, it decides whether to remove the leading `AS`, insert an `AS` before the first raw segment, or do nothing.

Files:

- `wrappers.dfy`: `Option` and `Result`.
- `segments.dfy` (module `SegmentTree`): the segment tree and the segment queries the rules use:
  - `is_type`, `get_child`, `segments.index`, `select_children`;
  - `raw_segments`, `raw`, `raw_upper`;
  - the `make_whitespace` and `make_newline` factories.
- `fixes.dfy` (module `Fixes`): `LintFix` and `LintResult`.
- `l040.dfy` (module `SelectModifierRule`): `Rule_L040._eval` and the facts about its fix list.
- `al01.dfy` (module `AliasingTableRule`): the decision made by `Rule_AL01._eval`.

Modelling choices:

- A segment is a `Leaf`, a raw segment with literal text, or a `Node` with ordered children. Both carry a type tag, an optional position marker and a free `isMeta` flag.
- A fix anchor is the anchored child's position among the clause's children. Under the model's structural equality, `SegmentTree.IndexOfFirstOfType` shows that `IndexOf` of the first child of a type returns that child's own position. Python's `__eq__` on segments is abstracted (see Left out).
- The `is_meta` flags of the whitespace and newline classes are defined outside the model. They are a parameter (`LeafClasses`), and no lemma assumes either value.
- Where the code raises, the model returns an error value:
  - L040: a select clause with a modifier but no newline child. `segments.index(None)` raises, so `Eval` returns `Err(NewlineNotFound)`.
  - AL01: the insert branch on an alias expression with no raw segment below it. `raw_segments[0]` raises, so `Eval` returns `Err(NoRawSegment)`.
- The scan's `stop_on` is `not s.is_meta` (src/sqlfluff/core/rules/std/L040.py:63-66), so a non-meta whitespace child stops the scan itself. `SelectModifierRule.ContentAfterModifierDeletesNoWhitespace` shows that when the child right after the modifier is not meta, only two fixes are produced: the edit and the delete of the modifier. Whether whitespace segments are meta is decided outside the two rule files.

## Model

| member | source | states |
|---|---|---|
| `SegmentTree.GetChild` | src/sqlfluff/core/rules/std/L040.py:36-41 | `get_child(t)` gives a position exactly when some child has type `t`, and that position holds the first child of type `t` |
| `SegmentTree.IndexOf` | src/sqlfluff/core/rules/std/L040.py:40-42 | `list.index(x)` gives the first position holding a value equal to `x`, or nothing when `x` is absent |
| `SegmentTree.IndexOfFirstOfType` | src/sqlfluff/core/rules/std/L040.py:40-42 | `segments.index` of the first child of a type returns the position `get_child` found, so positions can stand for child identity |
| `SegmentTree.SelectChildren` | src/sqlfluff/core/rules/std/L040.py:63-66 | `select_children` yields, in strictly increasing order, exactly the positions after the start that satisfy `collect_if` and have no `stop_on` child between the start and them, inclusive |
| `SegmentTree.SelectChildrenStopsAtStop` | src/sqlfluff/core/rules/std/L040.py:63-66 | nothing at or after the first `stop_on` child following the start is selected |
| `SegmentTree.RawSegments` | src/sqlfluff/rules/aliasing/AL01.py:88-96 | `raw_segments` lists only raw segments, and a raw segment's list is itself; with `RawSegmentsNode`, a node's list is its children's lists joined in order |
| `SegmentTree.RawSegmentsNode` | src/sqlfluff/rules/aliasing/AL01.py:88-96 | the raw segments of a node are exactly its children's raw segments, joined in source order |
| `SegmentTree.IsType` | src/sqlfluff/core/rules/std/L040.py:34 | `is_type(t)` holds exactly when the segment's single type tag is `t` |
| `SegmentTree.Raw` | src/sqlfluff/rules/aliasing/AL01.py:64 | `raw` of a raw segment is its literal text; with `RawNode`, `raw` of a node is its children's texts joined in order |
| `SegmentTree.RawNode` | src/sqlfluff/rules/aliasing/AL01.py:64 | the text of a node, defined through its raw segments, equals the concatenation of its children's texts |
| `SegmentTree.RawUpper` | src/sqlfluff/rules/aliasing/AL01.py:64-66 | under the modelled ASCII upper-casing, `raw_upper` has the length of `raw` and upper-cases each of its characters |
| `SegmentTree.RawStartsWithFirstRawSegment` | src/sqlfluff/rules/aliasing/AL01.py:88 | the text of `raw_segments[0]` is a prefix of the segment's `raw` |
| `SegmentTree.Upper` | src/sqlfluff/rules/aliasing/AL01.py:64-66 | the upper-cased text has the same length and upper-cases each character |
| `SegmentTree.UpperIsAs` | src/sqlfluff/rules/aliasing/AL01.py:64-66 | under the modelled ASCII upper-casing, a text upper-cases to `AS` exactly when it is `AS`, `As`, `aS` or `as` |
| `SegmentTree.MakeWhitespace` | src/sqlfluff/core/rules/std/L040.py:47-49 | the factory builds a whitespace leaf with the given text and the given position marker, copied verbatim |
| `SegmentTree.MakeNewline` | src/sqlfluff/core/rules/std/L040.py:51-53 | the factory builds a newline leaf with text `"\n"` and the given position marker, copied verbatim |
| `Fixes.Deletes` | src/sqlfluff/core/rules/std/L040.py:69 | one `delete` per collected position, in the same order |
| `SelectModifierRule.Eval` | src/sqlfluff/core/rules/std/L040.py:32-74 | non-select-clause gives no result; no modifier gives no result; a modifier without a newline is an error, and nothing else is; with both present the result exists exactly when the first newline precedes the first modifier; a result is anchored at the clause |
| `SelectModifierRule.ViolationResult` | src/sqlfluff/core/rules/std/L040.py:44-73 | on a violation the result is the clause with the edit, the modifier delete and the whitespace deletes |
| `SelectModifierRule.ViolationFixList` | src/sqlfluff/core/rules/std/L040.py:46-69 | on a violation: fix 0 edits the newline into a space, the original modifier and a newline, both new leaves carrying the newline's marker; fix 1 deletes the modifier; fix 2+k deletes the k-th collected whitespace; there are 2 + (number collected) fixes |
| `SelectModifierRule.ViolationDeletesWhitespaceRun` | src/sqlfluff/core/rules/std/L040.py:62-69 | the later deletes hit exactly the meta whitespace children after the modifier that come before the first non-meta child (a non-meta whitespace child stops the scan), each once, in source order |
| `SelectModifierRule.ViolationAnchorsDistinct` | src/sqlfluff/core/rules/std/L040.py:40-69 | newline position < modifier position < every deleted whitespace position, so all fix anchors are distinct children of the clause |
| `SelectModifierRule.MoveModifierAnchorsIncrease` | src/sqlfluff/core/rules/std/L040.py:55-69 | the move-modifier fix list anchors the newline, then the modifier, then positions beyond the modifier, all distinct children of the clause |
| `SelectModifierRule.EditDeleteDeletesIncrease` | src/sqlfluff/core/rules/std/L040.py:55-69 | an edit at the newline, a delete at a later modifier and deletes at increasing later positions anchor pairwise distinct children |
| `SelectModifierRule.ViolationStopsAtContent` | src/sqlfluff/core/rules/std/L040.py:63-69 | no fix anchors a child at or after the first non-meta child after the modifier |
| `SelectModifierRule.ContentAfterModifierDeletesNoWhitespace` | src/sqlfluff/core/rules/std/L040.py:63-69 | when the child after the modifier is not meta, the fix list is exactly the edit of the newline and the delete of the modifier |
| `SelectModifierRule.ExampleFixes` | src/sqlfluff/core/rules/std/L040.py:44-73 | on `select\n    distinct a, b\n` the fixes are the edit of the newline and the delete of `distinct`, plus the delete of the following space exactly when whitespace is meta |
| `AliasingTableRule.TargetElemsMatch` | src/sqlfluff/rules/aliasing/AL01.py:48-51 | the parent matches `_target_elems` exactly when it is a `from_expression_element` or a `merge_statement` |
| `AliasingTableRule.MatchesTargetTuples` | src/sqlfluff/rules/aliasing/AL01.py:63 | `matches_target_tuples` holds when some `("type", t)` tuple names the segment's type (see `TargetElemsMatch`) |
| `AliasingTableRule.HasAs` | src/sqlfluff/rules/aliasing/AL01.py:64 | `any(e.raw_upper == "AS" for e in segments)`: some child's upper-cased text is `AS` |
| `AliasingTableRule.HasAsAnyCase` | src/sqlfluff/rules/aliasing/AL01.py:64 | under the modelled ASCII upper-casing, some child counts as `AS` exactly when its text is `AS`, `As`, `aS` or `as` |
| `AliasingTableRule.LeadingAs` | src/sqlfluff/rules/aliasing/AL01.py:66 | `segments[0].raw_upper == "AS"`: there is a first child and its upper-cased text is `AS` |
| `AliasingTableRule.Eval` | src/sqlfluff/rules/aliasing/AL01.py:53-102 | a non-target parent gives no result; `RemoveAs(0)` anchored at the first child exactly when the parent is a target, `aliasing` is "implicit" and the first child is `AS`; an insert of `"AS"` before `raw_segments[0]`, anchored at the alias expression, exactly when the parent is a target, `aliasing` is not "implicit" and no child is `AS`; an error exactly when that insert has no raw segment to target |
| `AliasingTableRule.ReportsOnlyViolations` | src/sqlfluff/rules/aliasing/AL01.py:63-102 | a result under "implicit" means some child is `AS`; a result under any other setting means no child is `AS` |
| `AliasingTableRule.ImplicitNonLeadingAsIgnored` | src/sqlfluff/rules/aliasing/AL01.py:64-66 | under "implicit", an `AS` that is not the first child gives no result |
| `AliasingTableRule.ExplicitWithAsAccepted` | src/sqlfluff/rules/aliasing/AL01.py:64-82 | with an `AS` child and any setting other than "implicit" there is no result, because the `elif` pairs with the `AS` test |
| `AliasingTableRule.InsertTargetIsFirstRaw` | src/sqlfluff/rules/aliasing/AL01.py:87-98 | the insert target is a raw segment whose text starts the alias expression's text; it is the first of the children's raw segments joined in order, and it is the first raw segment of the first child when that child has one |
| `AliasingTableRule.LeadingAsAnyCase` | src/sqlfluff/rules/aliasing/AL01.py:64-66 | under the modelled ASCII upper-casing, the first child counts as `AS` exactly when its text is `AS` in some letter case |

## Left out

- `ReflowSequence` (`from_around_target`, `without`, `insert`, `respace`, `get_fixes`) is not part of this model. AL01's result carries only the abstract action (`RemoveAs`, `InsertKeywordBefore`), not the respacing fixes. So `context.parent_stack[0]` and `context.config`, which only feed the reflow, are not modelled.
- `AliasingTableRule.Eval` takes the immediate parent (`parent_stack[-1]`) as a parameter. The crawler always supplies one, so an empty parent stack is not modelled.
- `aliasing` is a plain string parameter. Config loading, rule registration, crawler dispatch, logging and the fix-compatibility decorator have no behaviour to state.
- The parser and lexer that build segments, and the stage that applies fixes to text, are outside the model. No property is claimed about the text after the fixes are applied. That includes the idempotence of L040 on corrected output.
- `SegmentTree.IsType` compares one type tag. A Python segment can answer `is_type` for several class types, and that hierarchy is not modelled.
- `SegmentTree.Upper` upper-cases ASCII letters only. Python's `str.upper` also maps other characters, for example the long s `ſ` to `S`, and those mappings are not modelled.
- `SegmentTree.RawUpper`: keeps the length of `raw` only under ASCII upper-casing. Python gives `"ß".upper() == "SS"`.
- `SegmentTree.UpperIsAs`: names the four ASCII spellings of `AS` only. Python's `str.upper` also maps `"aſ"` and `"Aſ"` to `"AS"`.
- `AliasingTableRule.HasAsAnyCase`: has the same ASCII-only gap as `UpperIsAs`.
- `AliasingTableRule.LeadingAsAnyCase`: has the same ASCII-only gap as `UpperIsAs`.
- `AliasingTableRule.MatchesTargetTuples` handles only `("type", t)` tuples, the only form `_target_elems` uses. The `raw` and `parenttype` forms of `matches_target_tuples` are not modelled.
- `SelectModifierRule.Eval` reads `if not select_modifier` as a check for `None`. Any other falsy segment value is not modelled.
- Segment equality is structural. Python's `__eq__` on segments, which `list.index` uses, is not part of this model. Anchors are child positions instead.
- A synthetic segment's position marker is copied verbatim and treated as advisory. No claim is made that positions are unique or ordered.
- `make_whitespace` and `make_newline` build leaves whose `is_meta` comes from the `LeafClasses` parameter. The real class attributes are not part of this model.
- A clause with several modifiers is handled as the code handles it: the first one is moved, and no property beyond that is claimed.
