/** The glyph data shared by the classifier, the compound patterns and the
    glyph navigation: shapes, evaluations, bounding boxes and glyphs. */
module Glyphs {
  import opened Wrappers

  /** A part of the closed enumeration of symbol shapes, in declaration order.
      NOISE is the category of clusters too small to be symbols. */
  datatype Shape =
    | NOISE | CLUTTER | STEM | BEAM | BEAM_2 | BEAM_3 | BEAM_HOOK
    | NOTEHEAD_BLACK | WHOLE_NOTE | SHARP | FLAT | NATURAL

  /** Every shape, in declaration order. */
  const AllShapes: seq<Shape> :=
    [NOISE, CLUTTER, STEM, BEAM, BEAM_2, BEAM_3, BEAM_HOOK,
     NOTEHEAD_BLACK, WHOLE_NOTE, SHARP, FLAT, NATURAL]

  lemma AllShapesListed(s: Shape)
    ensures s in AllShapes
  {
  }

  /** A shape together with the grade the classifier gives it. */
  datatype Evaluation = Evaluation(shape: Shape, grade: real)

  /** `java.awt.Rectangle`: upper-left corner and size, in pixels. */
  datatype Rect = Rect(x: int, y: int, width: int, height: int)

  /** `Rectangle.grow(h, v)`: every side moved outwards, by `h` horizontally and
      `v` vertically. */
  function Grow(r: Rect, h: int, v: int): (g: Rect)
    ensures g.x == r.x - h && g.x + g.width == r.x + r.width + h
    ensures g.y == r.y - v && g.y + g.height == r.y + r.height + v
  {
    Rect(r.x - h, r.y - v, r.width + 2 * h, r.height + 2 * v)
  }

  /** `Rectangle.intersects`: both rectangles are non-empty and their interiors
      overlap (integer overflow is not modelled). */
  predicate Intersects(a: Rect, b: Rect)
  {
    a.width > 0 && a.height > 0 && b.width > 0 && b.height > 0 &&
    b.x + b.width > a.x && b.y + b.height > a.y &&
    a.x + a.width > b.x && a.y + a.height > b.y
  }

  /** `Rectangle.union`: the smallest rectangle holding both. */
  function Union(a: Rect, b: Rect): (u: Rect)
    ensures u.x <= a.x && u.x <= b.x && (u.x == a.x || u.x == b.x)
    ensures u.y <= a.y && u.y <= b.y && (u.y == a.y || u.y == b.y)
    ensures u.x + u.width >= a.x + a.width && u.x + u.width >= b.x + b.width
    ensures u.x + u.width == a.x + a.width || u.x + u.width == b.x + b.width
    ensures u.y + u.height >= a.y + a.height && u.y + u.height >= b.y + b.height
    ensures u.y + u.height == a.y + a.height || u.y + u.height == b.y + b.height
  {
    var x := if a.x <= b.x then a.x else b.x;
    var y := if a.y <= b.y then a.y else b.y;
    var right := if a.x + a.width >= b.x + b.width then a.x + a.width else b.x + b.width;
    var bottom := if a.y + a.height >= b.y + b.height then a.y + a.height else b.y + b.height;
    Rect(x, y, right - x, bottom - y)
  }

  /** The id a glyph carries before it is registered in a system: a transient
      compound has no id yet. */
  const NO_ID: nat := 0

  /** A connected cluster of pixels. `stems` holds the ids of the stems attached
      to it, `forbidden` the shapes blacklisted for this glyph, `parts` the
      constituents of a compound (empty for a plain glyph), and `evaluation`
      the assigned evaluation, whose shape is the glyph's shape. */
  datatype Glyph = Glyph(
    id: nat,
    bounds: Rect,
    weight: nat,
    evaluation: Option<Evaluation>,
    manual: bool,
    stems: seq<nat>,
    forbidden: set<Shape>,
    parts: seq<Glyph>)
  {
    /** `getShape()`: the shape of the assigned evaluation, if any. */
    function AssignedShape(): Option<Shape>
    {
      if evaluation.Some? then Some(evaluation.value.shape) else None
    }
  }

  /** What a shape's specific checks may consult of a `SystemInfo`: its id
      and the glyphs registered in it as it stands. */
  datatype SystemView = SystemView(id: nat, glyphs: seq<Glyph>)

  /** `buildTransientCompound`: a glyph made of the given constituents, without
      an id, shape or stems, whose box is the union of theirs and whose weight
      is the sum of theirs. */
  function TransientCompound(parts: seq<Glyph>): (c: Glyph)
    requires |parts| > 0
    ensures c.id == NO_ID && c.parts == parts && c.AssignedShape().None? && !c.manual
    ensures c.bounds == BoundsOf(parts) && c.weight == WeightOf(parts)
    ensures c.stems == [] && c.forbidden == {}
  {
    Glyph(NO_ID, BoundsOf(parts), WeightOf(parts), None, false, [], {}, parts)
  }

  /** The union of the constituents' boxes: it holds every one of them (and,
      by `BoundsOfIsTight`, each of its sides is the side of some constituent). */
  function BoundsOf(parts: seq<Glyph>): (r: Rect)
    requires |parts| > 0
    ensures forall i :: 0 <= i < |parts| ==> r.x <= parts[i].bounds.x && r.y <= parts[i].bounds.y
    ensures forall i :: 0 <= i < |parts| ==>
      r.x + r.width >= parts[i].bounds.x + parts[i].bounds.width &&
      r.y + r.height >= parts[i].bounds.y + parts[i].bounds.height
  {
    if |parts| == 1 then parts[0].bounds else Union(parts[0].bounds, BoundsOf(parts[1..]))
  }

  /** The union box is the smallest one holding the constituents: each of its
      four sides is the side of some constituent. */
  lemma {:induction false} BoundsOfIsTight(parts: seq<Glyph>)
    requires |parts| > 0
    ensures exists i :: 0 <= i < |parts| && BoundsOf(parts).x == parts[i].bounds.x
    ensures exists i :: 0 <= i < |parts| && BoundsOf(parts).y == parts[i].bounds.y
    ensures exists i :: (0 <= i < |parts| &&
      BoundsOf(parts).x + BoundsOf(parts).width == parts[i].bounds.x + parts[i].bounds.width)
    ensures exists i :: (0 <= i < |parts| &&
      BoundsOf(parts).y + BoundsOf(parts).height == parts[i].bounds.y + parts[i].bounds.height)
  {
    var u, b := BoundsOf(parts), parts[0].bounds;
    if |parts| == 1 {
      assert u == b;
    } else {
      var rest := parts[1..];
      BoundsOfIsTight(rest);
      var r := BoundsOf(rest);
      assert u == Union(b, r);
      var kx :| 0 <= kx < |rest| && r.x == rest[kx].bounds.x;
      var ky :| 0 <= ky < |rest| && r.y == rest[ky].bounds.y;
      var kr :| 0 <= kr < |rest| && r.x + r.width == rest[kr].bounds.x + rest[kr].bounds.width;
      var kb :| 0 <= kb < |rest| && r.y + r.height == rest[kb].bounds.y + rest[kb].bounds.height;
      assert rest[kx] == parts[kx + 1] && rest[ky] == parts[ky + 1];
      assert rest[kr] == parts[kr + 1] && rest[kb] == parts[kb + 1];
    }
  }

  /** The summed weight of the constituents. */
  function WeightOf(parts: seq<Glyph>): nat
  {
    if |parts| == 0 then 0 else parts[0].weight + WeightOf(parts[1..])
  }

  /** A compound weighs at least as much as any of its constituents. */
  lemma {:induction false} WeightOfCovers(parts: seq<Glyph>, i: nat)
    requires i < |parts|
    ensures parts[i].weight <= WeightOf(parts)
  {
    if i > 0 {
      WeightOfCovers(parts[1..], i - 1);
    }
  }
}
