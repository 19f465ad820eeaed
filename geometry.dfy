/**
 * What the text detector delivers for one camera frame: text units with
 * integer bounding boxes, grouped into blocks, and the neighbour searches the
 * value strategies run over them.
 */
module Geometry {
  import opened Wrappers

  /** An axis-aligned box in frame pixels (`android.graphics.Rect`). */
  datatype Box = Box(left: int, top: int, right: int, bottom: int)

  /** One recognised fragment of text (`Text`) and its box. */
  datatype TextUnit = TextUnit(value: string, box: Box)

  /** A detector block: its units in reading order. */
  type Block = seq<TextUnit>

  /** One frame of detections: the blocks in the order the detector lists them. */
  type Frame = seq<Block>

  /** How far apart, in pixels, two tops may be for units to share a row. */
  const RowTolerance: int := 10

  function Abs(x: int): nat
  {
    if x < 0 then -x else x
  }

  /** The two neighbour searches around a keyword unit. */
  datatype Direction =
    | RightOf(keyword: Box)  // same row, starting at or after the keyword's right edge; ordered by left
    | Below(keyword: Box)    // top strictly below the keyword's top; ordered by top

  /** The candidate filter of each search. */
  predicate Qualifies(d: Direction, u: TextUnit)
  {
    match d
    case RightOf(kw) => Abs(u.box.top - kw.top) <= RowTolerance && kw.right <= u.box.left
    case Below(kw) => kw.top < u.box.top
  }

  /** The comparator key each search sorts its candidates by. */
  function SortKey(d: Direction, u: TextUnit): int
  {
    match d
    case RightOf(_) => u.box.left
    case Below(_) => u.box.top
  }

  /**
   * Index of the unit that heads the candidates after a stable sort by key:
   * the first qualifying unit whose key is least, or -1 when none qualifies.
   */
  function NearestIndex(s: seq<TextUnit>, d: Direction): (r: int)
    ensures -1 <= r < |s|
    ensures r == -1 <==> forall k :: 0 <= k < |s| ==> !Qualifies(d, s[k])
    ensures r >= 0 ==> Qualifies(d, s[r])
    ensures r >= 0 ==> forall k :: 0 <= k < |s| && Qualifies(d, s[k]) ==> SortKey(d, s[r]) <= SortKey(d, s[k])
    ensures r >= 0 ==> forall k :: 0 <= k < r && Qualifies(d, s[k]) ==> SortKey(d, s[r]) < SortKey(d, s[k])
  {
    if s == [] then -1
    else
      var init := s[..|s| - 1];
      var p := NearestIndex(init, d);
      var u := s[|s| - 1];
      assert forall k :: 0 <= k < |init| ==> init[k] == s[k];
      if !Qualifies(d, u) then p
      else if p >= 0 && SortKey(d, s[p]) <= SortKey(d, u) then p
      else |s| - 1
  }

  /** `Collections.sort(candidates, byKey); candidates.get(0)`, or None for no candidate. */
  function Nearest(s: seq<TextUnit>, d: Direction): Option<TextUnit>
  {
    var i := NearestIndex(s, d);
    if i < 0 then None else Some(s[i])
  }

  /** Scanning one more unit: it replaces the current pick only with a strictly smaller key. */
  lemma NearestSnoc(s: seq<TextUnit>, u: TextUnit, d: Direction)
    ensures Nearest(s + [u], d) ==
      if !Qualifies(d, u) then Nearest(s, d)
      else if Nearest(s, d).Some? && SortKey(d, Nearest(s, d).value) <= SortKey(d, u) then Nearest(s, d)
      else Some(u)
  {
    var t := s + [u];
    assert t[..|t| - 1] == s;
  }

  /** All units of a frame, block after block. */
  function Flatten(f: Frame): (r: seq<TextUnit>)
    ensures forall i, j :: 0 <= i < |f| && 0 <= j < |f[i]| ==> f[i][j] in r
    ensures forall u :: u in r ==> exists i :: 0 <= i < |f| && u in f[i]
  {
    if f == [] then []
    else
      var init := f[..|f| - 1];
      assert forall i :: 0 <= i < |init| ==> init[i] == f[i];
      Flatten(init) + f[|f| - 1]
  }

  lemma FlattenSnoc(f: Frame, i: nat)
    requires i < |f|
    ensures Flatten(f[..i + 1]) == Flatten(f[..i]) + f[i]
  {
    assert f[..i + 1][..i] == f[..i];
  }
}
