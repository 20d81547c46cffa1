/**
  The segment tree that both rules read: typed nodes with ordered children,
  position markers and an `is_meta` flag, and the segment queries the rules
  use (`is_type`, `get_child`, `select_children`, `raw_segments`, `raw_upper`,
  `segments.index`) and the two synthetic-segment factories.
 */
module SegmentTree {
  import opened Wrappers

  /** Where a segment's text began in the source. */
  datatype Position = Position(offset: nat, line: nat, column: nat)

  /**
    A parse-tree segment. A `Leaf` is a raw segment holding literal text; a
    `Node` holds its child segments in source order. Both carry a type tag,
    an optional position marker and the `is_meta` flag, which is left as a
    free boolean on every segment.
   */
  datatype Segment =
    | Leaf(kind: string, text: string, pos: Option<Position>, isMeta: bool)
    | Node(kind: string, children: seq<Segment>, pos: Option<Position>, isMeta: bool)
  {
    /** The direct children (`segment.segments`); a raw segment has none. */
    function Segments(): seq<Segment> {
      if Leaf? then [] else children
    }
  }

  /** `segment.is_type(t)`: the segment's type tag is `t`. */
  predicate IsType(s: Segment, t: string) {
    s.kind == t
  }

  // ---------------------------------------------------------------------------
  // get_child and segments.index
  // ---------------------------------------------------------------------------

  /** `i` is the position of the first segment of type `t` in `cs`. */
  predicate IsFirstOfType(cs: seq<Segment>, i: nat, t: string) {
    i < |cs| && IsType(cs[i], t) && forall j :: 0 <= j < i ==> !IsType(cs[j], t)
  }

  /** There is only one first segment of a type. */
  lemma FirstOfTypeUnique(cs: seq<Segment>, i: nat, j: nat, t: string)
    requires IsFirstOfType(cs, i, t) && IsFirstOfType(cs, j, t)
    ensures i == j
  {
  }

  /** No segment of `cs` has type `t`. */
  predicate NoneOfType(cs: seq<Segment>, t: string) {
    forall j :: 0 <= j < |cs| ==> !IsType(cs[j], t)
  }

  /** The first position at or after `from` holding a segment of type `t`. */
  function FirstOfTypeFrom(cs: seq<Segment>, t: string, from: nat): (r: Option<nat>)
    requires from <= |cs|
    ensures r.Some? ==> from <= r.value < |cs| && IsType(cs[r.value], t)
                        && forall j :: from <= j < r.value ==> !IsType(cs[j], t)
    ensures r.None? ==> forall j :: from <= j < |cs| ==> !IsType(cs[j], t)
    decreases |cs| - from
  {
    if from == |cs| then None
    else if IsType(cs[from], t) then Some(from)
    else FirstOfTypeFrom(cs, t, from + 1)
  }

  /**
    `segment.get_child(t)`: the first child of type `t`, given by its
    position among the children, or `None` when no child has that type.
   */
  function GetChild(s: Segment, t: string): (r: Option<nat>)
    ensures r.Some? <==> !NoneOfType(s.Segments(), t)
    ensures r.Some? ==> IsFirstOfType(s.Segments(), r.value, t)
  {
    FirstOfTypeFrom(s.Segments(), t, 0)
  }

  /** Python's `list.index(x)`: the first position holding a value equal to `x`. */
  function IndexOf(cs: seq<Segment>, x: Segment): (r: Option<nat>)
    ensures r.Some? ==> r.value < |cs| && cs[r.value] == x
                        && forall j :: 0 <= j < r.value ==> cs[j] != x
    ensures r.None? ==> x !in cs
    decreases |cs|
  {
    if cs == [] then None
    else if cs[0] == x then Some(0)
    else match IndexOf(cs[1..], x)
      case None => None
      case Some(k) => Some(k + 1)
  }

  /**
    Looking up the first child of a type by value (`segments.index(child)`)
    gives back the position `get_child` found, even though value equality
    could in principle match an earlier child: any equal child would have
    the same type. So positions can stand for child identity.
   */
  lemma IndexOfFirstOfType(cs: seq<Segment>, i: nat, t: string)
    requires IsFirstOfType(cs, i, t)
    ensures IndexOf(cs, cs[i]) == Some(i)
  {
    forall j | 0 <= j < i ensures cs[j] != cs[i] {
      assert !IsType(cs[j], t);
    }
  }

  // ---------------------------------------------------------------------------
  // select_children
  // ---------------------------------------------------------------------------

  /**
    `cs[j]` is reached by a forward scan that starts just after `from - 1`:
    no segment from `from` up to and including `j` satisfies `stop`.
   */
  predicate Unstopped(cs: seq<Segment>, from: nat, j: nat, stop: Segment -> bool)
    requires j < |cs|
  {
    forall k :: from <= k <= j ==> !stop(cs[k])
  }

  /** The positions of `cs` strictly increase. */
  predicate StrictlyIncreasing(r: seq<nat>) {
    forall a, b :: 0 <= a < b < |r| ==> r[a] < r[b]
  }

  /** The scan behind `select_children`, starting at position `from`. */
  function ScanFrom(cs: seq<Segment>, from: nat, collect: Segment -> bool, stop: Segment -> bool): (r: seq<nat>)
    requires from <= |cs|
    ensures forall k :: 0 <= k < |r| ==> from <= r[k] < |cs|
    ensures StrictlyIncreasing(r)
    ensures forall j {:trigger j in r} :: j in r <==>
              from <= j < |cs| && collect(cs[j]) && Unstopped(cs, from, j, stop)
    decreases |cs| - from
  {
    if from == |cs| || stop(cs[from]) then []
    else
      var rest := ScanFrom(cs, from + 1, collect, stop);
      if collect(cs[from]) then [from] + rest else rest
  }

  /**
    `segment.select_children(start_seg, collect_if, stop_on)`: scanning the
    children strictly after position `start`, the positions of the children
    satisfying `collect`, in scan order, up to and excluding the first child
    satisfying `stop` (that child is excluded even when it satisfies
    `collect`).
   */
  function SelectChildren(cs: seq<Segment>, start: nat, collect: Segment -> bool, stop: Segment -> bool): (r: seq<nat>)
    requires start < |cs|
    ensures StrictlyIncreasing(r)
    ensures forall k :: 0 <= k < |r| ==> start < r[k] < |cs|
    ensures forall j {:trigger j in r} :: j in r <==>
              start < j < |cs| && collect(cs[j]) && Unstopped(cs, start + 1, j, stop)
  {
    ScanFrom(cs, start + 1, collect, stop)
  }

  /** Nothing at or after the first stopping child is ever selected. */
  lemma {:induction false} SelectChildrenStopsAtStop(cs: seq<Segment>, start: nat, collect: Segment -> bool, stop: Segment -> bool, s: nat)
    requires start < s < |cs| && stop(cs[s])
    ensures forall k :: 0 <= k < |SelectChildren(cs, start, collect, stop)| ==>
              SelectChildren(cs, start, collect, stop)[k] < s
  {
    var r := SelectChildren(cs, start, collect, stop);
    forall k | 0 <= k < |r| ensures r[k] < s {
      assert r[k] in r;
    }
  }

  // ---------------------------------------------------------------------------
  // raw_segments, raw and raw_upper
  // ---------------------------------------------------------------------------

  /** `segment.raw_segments`: the raw segments below `s`, in source order. */
  function RawSegments(s: Segment): (r: seq<Segment>)
    ensures forall k :: 0 <= k < |r| ==> r[k].Leaf?
    ensures s.Leaf? ==> r == [s]
    decreases s, 1
  {
    if s.Leaf? then [s] else RawSegmentsFrom(s, 0)
  }

  /** The raw segments below the children of `s` from position `i` on. */
  function RawSegmentsFrom(s: Segment, i: nat): (r: seq<Segment>)
    requires s.Node? && i <= |s.children|
    ensures forall k :: 0 <= k < |r| ==> r[k].Leaf?
    decreases s, 0, |s.children| - i
  {
    if i == |s.children| then []
    else RawSegments(s.children[i]) + RawSegmentsFrom(s, i + 1)
  }

  /** The raw segments of each segment of `cs`, joined in order. */
  function JoinRawSegments(cs: seq<Segment>): seq<Segment> {
    if cs == [] then [] else RawSegments(cs[0]) + JoinRawSegments(cs[1..])
  }

  /** The raw segments below the children from `i` on are their lists joined in order. */
  lemma {:induction false} RawSegmentsFromJoin(s: Segment, i: nat)
    requires s.Node? && i <= |s.children|
    ensures RawSegmentsFrom(s, i) == JoinRawSegments(s.children[i..])
    decreases |s.children| - i
  {
    if i < |s.children| {
      RawSegmentsFromJoin(s, i + 1);
      assert s.children[i..][1..] == s.children[i + 1..];
    }
  }

  /**
    The raw segments of a node are its children's raw segments joined in
    order, as `[item for s in self.segments for item in s.raw_segments]`
    builds them.
   */
  lemma RawSegmentsNode(s: Segment)
    requires s.Node?
    ensures RawSegments(s) == JoinRawSegments(s.children)
  {
    RawSegmentsFromJoin(s, 0);
    assert s.children[0..] == s.children;
  }

  /** The raw segments of a node with a child start with that child's. */
  lemma FirstRawSegmentDescends(s: Segment)
    requires s.Node? && |s.children| > 0
    ensures RawSegments(s) == RawSegments(s.children[0]) + RawSegmentsFrom(s, 1)
  {
  }

  /** The concatenated texts of a sequence of raw segments. */
  function Texts(rs: seq<Segment>): string {
    if rs == [] then ""
    else (if rs[0].Leaf? then rs[0].text else "") + Texts(rs[1..])
  }

  /** `segment.raw`: the source text the segment covers. */
  function Raw(s: Segment): (r: string)
    ensures s.Leaf? ==> r == s.text
  {
    var rs := RawSegments(s);
    assert s.Leaf? ==> rs[1..] == [] && Texts(rs) == s.text + Texts(rs[1..]);
    Texts(rs)
  }

  /** The concatenated texts of a sequence of segments, one after the other. */
  function ConcatRaw(cs: seq<Segment>): string {
    if cs == [] then "" else Raw(cs[0]) + ConcatRaw(cs[1..])
  }

  /** The text of two runs of raw segments is the text of the first, then of the second. */
  lemma {:induction false} TextsAppend(a: seq<Segment>, b: seq<Segment>)
    ensures Texts(a + b) == Texts(a) + Texts(b)
  {
    if a != [] {
      assert (a + b)[1..] == a[1..] + b;
      TextsAppend(a[1..], b);
    } else {
      assert a + b == b;
    }
  }

  /** The raw segments of the children from `i` on have, together, the children's texts. */
  lemma {:induction false} RawSegmentsFromTexts(s: Segment, i: nat)
    requires s.Node? && i <= |s.children|
    ensures Texts(RawSegmentsFrom(s, i)) == ConcatRaw(s.children[i..])
    decreases |s.children| - i
  {
    if i < |s.children| {
      RawSegmentsFromTexts(s, i + 1);
      TextsAppend(RawSegments(s.children[i]), RawSegmentsFrom(s, i + 1));
      assert s.children[i..][1..] == s.children[i + 1..];
    }
  }

  /**
    The text of a node is the concatenation of its children's texts, as
    `"".join(s.raw for s in self.segments)` computes it.
   */
  lemma RawNode(s: Segment)
    requires s.Node?
    ensures Raw(s) == ConcatRaw(s.children)
  {
    RawSegmentsFromTexts(s, 0);
    assert s.children[0..] == s.children;
  }

  /** The text of a segment begins with the text of its first raw segment. */
  lemma RawStartsWithFirstRawSegment(s: Segment)
    requires |RawSegments(s)| > 0
    ensures RawSegments(s)[0].text <= Raw(s)
  {
  }

  /** ASCII upper-casing of one character. */
  function UpperChar(c: char): char {
    if 'a' <= c <= 'z' then (c as int - 'a' as int + 'A' as int) as char else c
  }

  /** Upper-casing of a string, character by character. */
  function Upper(s: string): (u: string)
    ensures |u| == |s|
    ensures forall i :: 0 <= i < |s| ==> u[i] == UpperChar(s[i])
  {
    if s == [] then [] else [UpperChar(s[0])] + Upper(s[1..])
  }

  /** `segment.raw_upper`: the segment's text, upper-cased character by character. */
  function RawUpper(s: Segment): (u: string)
    ensures |u| == |Raw(s)|
    ensures forall i :: 0 <= i < |u| ==> u[i] == UpperChar(Raw(s)[i])
  {
    Upper(Raw(s))
  }

  /** A text upper-cases to "AS" exactly when it is `AS` in any letter case. */
  lemma UpperIsAs(s: string)
    ensures Upper(s) == "AS" <==> s in {"AS", "As", "aS", "as"}
  {
    if Upper(s) == "AS" {
      assert |s| == 2;
      assert UpperChar(s[0]) == 'A' && UpperChar(s[1]) == 'S';
      assert s[0] == 'A' || s[0] == 'a';
      assert s[1] == 'S' || s[1] == 's';
      assert s == [s[0], s[1]];
    }
    if s in {"AS", "As", "aS", "as"} {
      assert |Upper(s)| == 2 && Upper(s)[0] == 'A' && Upper(s)[1] == 'S';
      assert Upper(s) == [Upper(s)[0], Upper(s)[1]];
    }
  }

  // ---------------------------------------------------------------------------
  // Synthetic segments
  // ---------------------------------------------------------------------------

  /**
    The `is_meta` flags of the whitespace and newline segment classes, which
    are defined outside this model.
   */
  datatype LeafClasses = LeafClasses(whitespaceIsMeta: bool, newlineIsMeta: bool)

  /** `make_whitespace(raw, pos_marker)`: a new whitespace leaf. */
  function MakeWhitespace(raw: string, pos: Option<Position>, classes: LeafClasses): (w: Segment)
    ensures w.Leaf? && IsType(w, "whitespace") && Raw(w) == raw
    ensures w.pos == pos && w.isMeta == classes.whitespaceIsMeta
  {
    Leaf("whitespace", raw, pos, classes.whitespaceIsMeta)
  }

  /** `make_newline(pos_marker)`: a new newline leaf holding a line feed. */
  function MakeNewline(pos: Option<Position>, classes: LeafClasses): (n: Segment)
    ensures n.Leaf? && IsType(n, "newline") && Raw(n) == "\n"
    ensures n.pos == pos && n.isMeta == classes.newlineIsMeta
  {
    Leaf("newline", "\n", pos, classes.newlineIsMeta)
  }
}
