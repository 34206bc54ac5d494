/**
 * Splitting the shapes of one SWBD shapefile into polygon rings.
 *
 * A shape carries its vertices and the vertex indices at which its parts
 * start.  The builder walks every shape with at least two vertices, vertex by
 * vertex, and starts a new ring at vertex 0 of a shape that has parts and at
 * every part start it meets; each vertex is appended to the ring being built.
 * Rings are numbered across all shapes of the file; num_poly starts at -1
 * and is incremented once more after the last shape, so that it ends as the
 * number of rings.
 */
module Rings {
  import opened Options

  /** A vertex as read from the shapefile: longitude x, latitude y. */
  datatype Vertex = Vertex(x: real, y: real)

  /** One closed boundary: its vertices in order. */
  type Ring = seq<Vertex>

  /** What SHPReadObject yields for one shape: vertices and part start indices. */
  datatype Shape = Shape(vertices: seq<Vertex>, partStarts: seq<int>)

  /** All vertices of the rings, in ring order. */
  function Flatten(rings: seq<Ring>): seq<Vertex>
  {
    if rings == [] then [] else Flatten(rings[..|rings| - 1]) + rings[|rings| - 1]
  }

  /** The vertices the builder reads: those of shapes with two or more vertices, in order. */
  function ReadVertices(shapes: seq<Shape>): seq<Vertex>
  {
    if shapes == [] then []
    else
      var last := shapes[|shapes| - 1];
      ReadVertices(shapes[..|shapes| - 1]) + (if |last.vertices| >= 2 then last.vertices else [])
  }

  /**
   * The usual shapefile form of a shape's part list: the first part starts at
   * vertex 0 and the starts increase strictly and stay inside the shape.
   */
  predicate WellFormedParts(s: Shape)
  {
    && |s.partStarts| > 0
    && s.partStarts[0] == 0
    && (forall a, b :: 0 <= a < b < |s.partStarts| ==> s.partStarts[a] < s.partStarts[b])
    && (forall k :: 0 <= k < |s.partStarts| ==> s.partStarts[k] < |s.vertices|)
  }

  /** The ring of part k of a well-formed shape: from its start to the next part's start. */
  function PartRing(s: Shape, k: nat): Ring
    requires WellFormedParts(s) && k < |s.partStarts|
  {
    var from := s.partStarts[k];
    var to := if k + 1 < |s.partStarts| then s.partStarts[k + 1] else |s.vertices|;
    s.vertices[from..to]
  }

  /** The rings of a well-formed shape, one per part. */
  function ShapeRings(s: Shape): seq<Ring>
    requires WellFormedParts(s)
  {
    seq(|s.partStarts|, k requires 0 <= k < |s.partStarts| => PartRing(s, k))
  }

  /**
   * The reference reading of a file whose shapes are well formed: the parts
   * of every shape with at least two vertices, shape after shape.
   */
  function PartRings(shapes: seq<Shape>): seq<Ring>
    requires forall m :: 0 <= m < |shapes| ==> WellFormedParts(shapes[m])
  {
    if shapes == [] then []
    else
      var last := shapes[|shapes| - 1];
      PartRings(shapes[..|shapes| - 1]) + (if |last.vertices| >= 2 then ShapeRings(last) else [])
  }

  /** The rings of one shape laid end to end are the shape's vertices. */
  lemma {:induction false} ShapeRingsFlatten(s: Shape, m: nat)
    requires WellFormedParts(s) && m <= |s.partStarts|
    ensures Flatten(ShapeRings(s)[..m]) == s.vertices[..if m < |s.partStarts| then s.partStarts[m] else |s.vertices|]
  {
    if m > 0 {
      ShapeRingsFlatten(s, m - 1);
      var rs := ShapeRings(s);
      assert rs[..m][..m - 1] == rs[..m - 1];
      assert rs[..m][m - 1] == PartRing(s, m - 1);
    }
  }

  /** Splitting into parts keeps every vertex, once and in order. */
  lemma {:induction false} PartRingsFlatten(shapes: seq<Shape>)
    requires forall m :: 0 <= m < |shapes| ==> WellFormedParts(shapes[m])
    ensures Flatten(PartRings(shapes)) == ReadVertices(shapes)
  {
    if shapes != [] {
      var last := shapes[|shapes| - 1];
      PartRingsFlatten(shapes[..|shapes| - 1]);
      if |last.vertices| >= 2 {
        ShapeRingsFlatten(last, |last.partStarts|);
        assert ShapeRings(last)[..|last.partStarts|] == ShapeRings(last);
        FlattenAppend(PartRings(shapes[..|shapes| - 1]), ShapeRings(last));
      } else {
        assert PartRings(shapes) == PartRings(shapes[..|shapes| - 1]);
      }
    }
  }

  /** Flatten distributes over concatenation. */
  lemma {:induction false} FlattenAppend(a: seq<Ring>, b: seq<Ring>)
    ensures Flatten(a + b) == Flatten(a) + Flatten(b)
    decreases |b|
  {
    if b == [] {
      assert a + b == a;
    } else {
      var b' := b[..|b| - 1];
      assert (a + b)[..|a + b| - 1] == a + b';
      assert (a + b)[|a + b| - 1] == b[|b| - 1];
      FlattenAppend(a, b');
      assert Flatten(b) == Flatten(b') + b[|b| - 1];
      assert Flatten(a + b) == Flatten(a + b') + b[|b| - 1];
      assert Flatten(a) + Flatten(b') + b[|b| - 1] == Flatten(a) + (Flatten(b') + b[|b| - 1]);
    }
  }

  /** The number of parts of the shapes the builder reads. */
  function PartCount(shapes: seq<Shape>): nat
  {
    if shapes == [] then 0
    else
      var last := shapes[|shapes| - 1];
      PartCount(shapes[..|shapes| - 1]) + (if |last.vertices| >= 2 then |last.partStarts| else 0)
  }

  /** A well-formed file yields one ring per part. */
  lemma {:induction false} PartRingsCount(shapes: seq<Shape>)
    requires forall m :: 0 <= m < |shapes| ==> WellFormedParts(shapes[m])
    ensures |PartRings(shapes)| == PartCount(shapes)
  {
    if shapes != [] {
      PartRingsCount(shapes[..|shapes| - 1]);
    }
  }

  /**
   * Shape m is the first shape read and has no parts: its first vertex would
   * be appended to ring num_poly = -1, before any ring exists.
   */
  predicate VertexBeforeAnyRing(shapes: seq<Shape>, m: nat)
    requires m < |shapes|
  {
    |shapes[m].vertices| >= 2 && |shapes[m].partStarts| == 0 && ReadVertices(shapes[..m]) == []
  }

  /**
   * The rings of part k of a well-formed shape read up to vertex j: the
   * parts before k complete and part k up to j.
   */
  function PartialRings(s: Shape, k: nat, j: nat): seq<Ring>
    requires WellFormedParts(s) && k < |s.partStarts| && s.partStarts[k] <= j <= |s.vertices|
  {
    ShapeRings(s)[..k] + [s.vertices[s.partStarts[k]..j]]
  }

  /** rs with vertex v appended to its last ring: the builder's ring[num_poly] append. */
  function AppendToLast(rs: seq<Ring>, v: Vertex): (r: seq<Ring>)
    requires rs != []
    ensures |r| == |rs| && r[..|r| - 1] == rs[..|rs| - 1] && r[|r| - 1] == rs[|rs| - 1] + [v]
    ensures Flatten(r) == Flatten(rs) + [v]
  {
    var r := rs[..|rs| - 1] + [rs[|rs| - 1] + [v]];
    assert r[..|r| - 1] == rs[..|rs| - 1];
    r
  }

  /** Vertex 0 of a well-formed shape opens its first part. */
  lemma PartialRingsFirst(rings: seq<Ring>, s: Shape)
    requires WellFormedParts(s)
    ensures AppendToLast(rings + [[]], s.vertices[0]) == rings + PartialRings(s, 0, 1)
  {
    var r := AppendToLast(rings + [[]], s.vertices[0]);
    assert (rings + [[]])[..|rings|] == rings;
    assert s.vertices[0..1] == [] + [s.vertices[0]];
    assert r == rings + [s.vertices[0..1]];
  }

  /** Vertex j continues part k. */
  lemma PartialRingsExtend(rings: seq<Ring>, s: Shape, k: nat, j: nat)
    requires WellFormedParts(s) && k < |s.partStarts| && s.partStarts[k] <= j < |s.vertices|
    ensures AppendToLast(rings + PartialRings(s, k, j), s.vertices[j]) == rings + PartialRings(s, k, j + 1)
  {
    var before := rings + PartialRings(s, k, j);
    var r := AppendToLast(before, s.vertices[j]);
    var prefix := rings + ShapeRings(s)[..k];
    assert before == prefix + [s.vertices[s.partStarts[k]..j]];
    assert before[..|before| - 1] == prefix;
    assert s.vertices[s.partStarts[k]..j + 1] == s.vertices[s.partStarts[k]..j] + [s.vertices[j]];
    assert r == prefix + [s.vertices[s.partStarts[k]..j + 1]];
  }

  /** Vertex j opens part k + 1, closing part k. */
  lemma PartialRingsNewPart(rings: seq<Ring>, s: Shape, k: nat, j: nat)
    requires WellFormedParts(s) && k + 1 < |s.partStarts| && s.partStarts[k + 1] == j < |s.vertices|
    ensures AppendToLast(rings + PartialRings(s, k, j) + [[]], s.vertices[j]) == rings + PartialRings(s, k + 1, j + 1)
  {
    var before := rings + PartialRings(s, k, j) + [[]];
    var r := AppendToLast(before, s.vertices[j]);
    var rs := ShapeRings(s);
    assert rs[..k + 1] == rs[..k] + [PartRing(s, k)];
    assert before[..|before| - 1] == rings + rs[..k + 1];
    assert s.vertices[j..j + 1] == [] + [s.vertices[j]];
    assert r == rings + rs[..k + 1] + [s.vertices[j..j + 1]];
  }

  /**
   * One pass of the vertex loop over a well-formed shape.  Before it, the
   * rings hold the parts read up to vertex j and the part counter is
   * numParts.  After the part-start check and the append of vertex j, they
   * hold the parts read up to vertex j + 1, and the counter still points
   * just past the part being built.
   */
  lemma PartialRingsStep(base: seq<Ring>, s: Shape, j: nat, numParts: int, numParts': int,
                         start: bool, before: seq<Ring>, after: seq<Ring>)
    requires j < |s.vertices| && 1 <= numParts
    requires j == 0 ==> numParts == 1 && before == base
    requires PartsRead(base, s, j, numParts, before)
    requires numParts' == if numParts < |s.partStarts| && s.partStarts[numParts] == j then numParts + 1 else numParts
    requires start == ((j == 0 && |s.partStarts| > 0) || numParts' != numParts)
    requires after == if start then before + [[]] else before
    ensures WellFormedParts(s) ==> after != []
    ensures after != [] ==> PartsRead(base, s, j + 1, numParts', AppendToLast(after, s.vertices[j]))
  {
    if !WellFormedParts(s) {
      return;
    }
    if j == 0 {
      if 1 < |s.partStarts| {
        assert s.partStarts[0] < s.partStarts[1];
      }
      assert numParts' == 1 && after == base + [[]];
      PartialRingsFirst(base, s);
    } else if start {
      assert numParts' == numParts + 1 && s.partStarts[numParts] == j;
      PartialRingsNewPart(base, s, numParts - 1, j);
    } else {
      assert numParts' == numParts && after == base + PartialRings(s, numParts - 1, j);
      PartialRingsExtend(base, s, numParts - 1, j);
    }
    assert AppendToLast(after, s.vertices[j]) == base + PartialRings(s, numParts' - 1, j + 1);
    if numParts' < |s.partStarts| {
      assert s.partStarts[numParts' - 1] < s.partStarts[numParts'];
    }
  }

  /** Once the last vertex is read, the shape's rings are its parts. */
  lemma PartialRingsComplete(s: Shape)
    requires WellFormedParts(s)
    ensures PartialRings(s, |s.partStarts| - 1, |s.vertices|) == ShapeRings(s)
  {
    var k := |s.partStarts| - 1;
    var rs := ShapeRings(s);
    assert rs == rs[..k] + [PartRing(s, k)];
  }

  /**
   * The part-start check before vertex j is appended: a new ring opens at
   * vertex 0 of a shape with parts and at the next part start, which also
   * advances the part counter.  Opening a ring keeps every vertex read so far.
   */
  method CheckPartStart(shape: Shape, j: int, numParts: int, rings: seq<Ring>, numPoly: int)
    returns (startSegment: bool, numParts': int, rings': seq<Ring>, numPoly': int)
    requires 0 <= numParts
    ensures var next := numParts < |shape.partStarts| && shape.partStarts[numParts] == j;
      && numParts' == (if next then numParts + 1 else numParts)
      && startSegment == ((j == 0 && |shape.partStarts| > 0) || next)
    ensures rings' == if startSegment then rings + [[]] else rings
    ensures numPoly' == if startSegment then numPoly + 1 else numPoly
    ensures Flatten(rings') == Flatten(rings)
  {
    startSegment, numParts', rings', numPoly' := false, numParts, rings, numPoly;
    if j == 0 && |shape.partStarts| > 0 {
      startSegment := true;
    }
    if numParts < |shape.partStarts| && shape.partStarts[numParts] == j {
      startSegment := true;
      numParts' := numParts + 1;
    }
    if startSegment {
      numPoly' := numPoly + 1;
      assert (rings + [[]])[..|rings|] == rings;
      rings' := rings + [[]];
    }
  }

  /** Vertex j is the start of part numParts: the part counter advances. */
  predicate IsNextPart(shape: Shape, j: nat, numParts: nat)
  {
    |shape.partStarts| > numParts && shape.partStarts[numParts] == j
  }

  /** The part counter after the check at vertex j. */
  function PartsAfter(shape: Shape, j: nat, numParts: nat): nat
  {
    if IsNextPart(shape, j, numParts) then numParts + 1 else numParts
  }

  /** The rings after the check at vertex j: a new, empty ring when a ring starts there. */
  function StartedRings(shape: Shape, j: nat, numParts: nat, rings: seq<Ring>): seq<Ring>
  {
    if (j == 0 && |shape.partStarts| > 0) || IsNextPart(shape, j, numParts) then rings + [[]] else rings
  }

  /**
   * The reference reading of the vertex loop: the rings after vertices
   * [j, ..) of shape are read into rings with the part counter at numParts.
   * Each vertex first meets the part-start check, then goes to the last ring;
   * the result is None when there is no ring to take it.
   */
  function VerticesFrom(shape: Shape, j: nat, numParts: nat, rings: seq<Ring>): Option<seq<Ring>>
    decreases |shape.vertices| - j
  {
    if j >= |shape.vertices| then Some(rings)
    else
      var started := StartedRings(shape, j, numParts, rings);
      if started == [] then None
      else VerticesFrom(shape, j + 1, PartsAfter(shape, j, numParts), AppendToLast(started, shape.vertices[j]))
  }

  /**
   * The reference reading of the shape loop from shape i on: shapes with
   * fewer than two vertices are skipped, every other one is read from
   * vertex 0 with the part counter at 1.
   */
  function ShapesFrom(shapes: seq<Shape>, i: nat, rings: seq<Ring>): Option<seq<Ring>>
    decreases |shapes| - i
  {
    if i >= |shapes| then Some(rings)
    else if |shapes[i].vertices| < 2 then ShapesFrom(shapes, i + 1, rings)
    else match VerticesFrom(shapes[i], 0, 1, rings)
      case None => None
      case Some(r) => ShapesFrom(shapes, i + 1, r)
  }

  /** The rings of a whole file, or None when a vertex finds no ring. */
  function SplitOf(shapes: seq<Shape>): Option<seq<Ring>>
  {
    ShapesFrom(shapes, 0, [])
  }

  /** Once a ring exists, every later vertex has one to go to. */
  lemma {:induction false} VerticesFromNonEmpty(shape: Shape, j: nat, numParts: nat, rings: seq<Ring>)
    requires rings != []
    ensures VerticesFrom(shape, j, numParts, rings).Some? && VerticesFrom(shape, j, numParts, rings).value != []
    decreases |shape.vertices| - j
  {
    if j < |shape.vertices| {
      var started := StartedRings(shape, j, numParts, rings);
      assert |started| >= |rings|;
      VerticesFromNonEmpty(shape, j + 1, PartsAfter(shape, j, numParts), AppendToLast(started, shape.vertices[j]));
    }
  }

  /** Reading a shape fails exactly when no ring exists yet and the shape has no parts. */
  lemma VerticesFromFails(shape: Shape, rings: seq<Ring>)
    requires |shape.vertices| >= 1
    ensures VerticesFrom(shape, 0, 1, rings).None? <==> rings == [] && |shape.partStarts| == 0
    ensures VerticesFrom(shape, 0, 1, rings).Some? ==> VerticesFrom(shape, 0, 1, rings).value != []
  {
    var started := StartedRings(shape, 0, 1, rings);
    if started != [] {
      VerticesFromNonEmpty(shape, 1, PartsAfter(shape, 0, 1), AppendToLast(started, shape.vertices[0]));
    }
  }

  /**
   * Reading the shapes from i on, with rings empty exactly when no vertex
   * was read before shape i, fails exactly when a later shape meets a
   * missing ring.
   */
  lemma {:induction false} ShapesFromFails(shapes: seq<Shape>, i: nat, rings: seq<Ring>)
    requires i <= |shapes|
    requires rings == [] <==> ReadVertices(shapes[..i]) == []
    ensures ShapesFrom(shapes, i, rings).None? <==> exists m :: i <= m < |shapes| && VertexBeforeAnyRing(shapes, m)
    decreases |shapes| - i
  {
    if i < |shapes| {
      var s := shapes[i];
      assert shapes[..i + 1][..i] == shapes[..i];
      assert shapes[..i + 1][i] == s;
      if |s.vertices| < 2 {
        ShapesFromFails(shapes, i + 1, rings);
      } else {
        VerticesFromFails(s, rings);
        match VerticesFrom(s, 0, 1, rings)
        case None =>
          assert VertexBeforeAnyRing(shapes, i);
        case Some(r) =>
          ShapesFromFails(shapes, i + 1, r);
      }
    }
  }

  /** The file's reading fails exactly when some shape meets a missing ring. */
  lemma SplitOfFails(shapes: seq<Shape>)
    ensures SplitOf(shapes).None? <==> exists m :: 0 <= m < |shapes| && VertexBeforeAnyRing(shapes, m)
  {
    assert shapes[..0] == [];
    ShapesFromFails(shapes, 0, []);
  }

  /**
   * The ring-splitting loop over the shapes of one file.  Rings are numbered
   * across the whole file; the result is None when a vertex arrives before
   * any ring was started (the source then indexes its ring arrays at -1).  On
   * success every vertex read is in exactly one ring, in order, no ring is
   * empty, num_poly is the number of rings and, for well-formed part lists,
   * the rings are the shapes' parts.
   */
  method SplitRings(shapes: seq<Shape>) returns (result: Option<seq<Ring>>, numPoly: int)
    ensures result.None? <==> exists m :: 0 <= m < |shapes| && VertexBeforeAnyRing(shapes, m)
    ensures result.Some? ==> Flatten(result.value) == ReadVertices(shapes)
    ensures result.Some? ==> forall k :: 0 <= k < |result.value| ==> result.value[k] != []
    ensures result.Some? ==> numPoly == |result.value|
    ensures (forall m :: 0 <= m < |shapes| ==> WellFormedParts(shapes[m])) ==> result == Some(PartRings(shapes))
    ensures result == SplitOf(shapes)
  {
    var rings: seq<Ring> := [];
    numPoly := -1;
    var i := 0;
    while i < |shapes|
      invariant 0 <= i <= |shapes|
      invariant ShapesLoop(shapes, i, rings, numPoly)
      invariant SplitOf(shapes) == ShapesFrom(shapes, i, rings)
    {
      var ok;
      ok, rings, numPoly := ReadShape(shapes, i, rings, numPoly);
      if !ok {
        return None, numPoly;
      }
      i := i + 1;
    }
    assert shapes[..i] == shapes;
    numPoly := numPoly + 1;
    return Some(rings), numPoly;
  }

  /**
   * The state of the shape loop after shapes [0, i): the rings hold exactly
   * the vertices read so far, none is empty, num_poly indexes the last one,
   * no earlier shape met a missing ring, and when every shape is well formed
   * the rings are the parts of the shapes read.
   */
  ghost predicate ShapesLoop(shapes: seq<Shape>, i: nat, rings: seq<Ring>, numPoly: int)
    requires i <= |shapes|
  {
    && numPoly == |rings| - 1
    && Flatten(rings) == ReadVertices(shapes[..i])
    && (rings == [] <==> ReadVertices(shapes[..i]) == [])
    && (forall k :: 0 <= k < |rings| ==> rings[k] != [])
    && (forall m :: 0 <= m < i ==> !VertexBeforeAnyRing(shapes, m))
    && ((forall m :: 0 <= m < |shapes| ==> WellFormedParts(shapes[m])) ==> rings == PartRings(shapes[..i]))
  }

  /**
   * One pass of the shape loop: a shape with fewer than two vertices is
   * skipped, any other has its vertices split into rings.  It fails exactly
   * when the shape meets a missing ring.
   */
  method ReadShape(shapes: seq<Shape>, i: nat, rings: seq<Ring>, numPoly: int)
    returns (ok: bool, rings': seq<Ring>, numPoly': int)
    requires i < |shapes| && ShapesLoop(shapes, i, rings, numPoly)
    ensures ok <==> !VertexBeforeAnyRing(shapes, i)
    ensures ok ==> ShapesLoop(shapes, i + 1, rings', numPoly')
    ensures ShapesFrom(shapes, i, rings) == if ok then ShapesFrom(shapes, i + 1, rings') else None
  {
    var shape := shapes[i];
    assert shapes[..i + 1][..i] == shapes[..i];
    assert shapes[..i + 1][i] == shape;
    rings', numPoly' := rings, numPoly;
    if |shape.vertices| >= 2 {
      ok, rings', numPoly' := SplitShape(rings, numPoly, shape);
      if !ok {
        return;
      }
    }
    ok := true;
  }

  /**
   * The state of the vertex loop over one shape after vertices [0, j): the
   * rings started before the shape (`base`) are extended by exactly those
   * vertices, no ring is empty, num_poly indexes the last ring, and for a
   * well-formed shape the rings are its parts read up to vertex j, with the
   * part counter just past the part being built.
   */
  ghost predicate VertexLoop(base: seq<Ring>, shape: Shape, j: nat, numParts: int, out: seq<Ring>, outPoly: int)
  {
    && j <= |shape.vertices|
    && outPoly == |out| - 1
    && Flatten(out) == Flatten(base) + shape.vertices[..j]
    && (forall k :: 0 <= k < |out| ==> out[k] != [])
    && 1 <= numParts
    && (j == 0 ==> out == base && numParts == 1)
    && (j > 0 ==> out != [] && (base != [] || |shape.partStarts| > 0))
    && PartsRead(base, shape, j, numParts, out)
  }

  /**
   * For a well-formed shape, the rings after vertices [0, j) are `base`
   * followed by the shape's parts read up to vertex j, and the part counter
   * is just past the part being built.
   */
  ghost predicate PartsRead(base: seq<Ring>, shape: Shape, j: nat, numParts: int, out: seq<Ring>)
  {
    WellFormedParts(shape) ==>
      && 1 <= numParts <= |shape.partStarts|
      && (j > 0 ==> && shape.partStarts[numParts - 1] < j <= |shape.vertices|
                    && (numParts < |shape.partStarts| ==> j <= shape.partStarts[numParts])
                    && out == base + PartialRings(shape, numParts - 1, j))
  }

  /**
   * One pass of the vertex loop: the part-start check, then vertex j is
   * appended to ring num_poly.  It fails exactly when that ring does not
   * exist: vertex 0 of a shape without parts, with no ring started before.
   */
  method ReadVertex(base: seq<Ring>, shape: Shape, j: nat, numParts: int, out: seq<Ring>, outPoly: int)
    returns (ok: bool, numParts': int, out': seq<Ring>, outPoly': int)
    requires j < |shape.vertices| && VertexLoop(base, shape, j, numParts, out, outPoly)
    ensures ok <==> !(j == 0 && base == [] && |shape.partStarts| == 0)
    ensures ok ==> VertexLoop(base, shape, j + 1, numParts', out', outPoly')
    ensures VerticesFrom(shape, j, numParts, out) == if ok then VerticesFrom(shape, j + 1, numParts', out') else None
  {
    var startSegment;
    startSegment, numParts', out', outPoly' := CheckPartStart(shape, j, numParts, out, outPoly);
    assert numParts' == PartsAfter(shape, j, numParts) && out' == StartedRings(shape, j, numParts, out);
    PartialRingsStep(base, shape, j, numParts, numParts', startSegment, out, out');
    if out' == [] {
      return false, numParts', out', outPoly';
    }
    ok := true;
    out' := AppendToLast(out', shape.vertices[j]);
    assert shape.vertices[..j + 1] == shape.vertices[..j] + [shape.vertices[j]];
  }

  /**
   * The vertex loop over one shape with at least two vertices: its vertices
   * are appended, in order, to the rings started so far.  It fails exactly
   * when no ring exists yet and the shape has no parts; a well-formed shape
   * adds exactly its parts.
   */
  method SplitShape(rings: seq<Ring>, numPoly: int, shape: Shape) returns (ok: bool, out: seq<Ring>, outPoly: int)
    requires |shape.vertices| >= 2
    requires numPoly == |rings| - 1
    requires forall k :: 0 <= k < |rings| ==> rings[k] != []
    ensures ok <==> rings != [] || |shape.partStarts| > 0
    ensures ok ==> outPoly == |out| - 1 && out != []
    ensures ok ==> Flatten(out) == Flatten(rings) + shape.vertices
    ensures ok ==> forall k :: 0 <= k < |out| ==> out[k] != []
    ensures ok && WellFormedParts(shape) ==> out == rings + ShapeRings(shape)
    ensures VerticesFrom(shape, 0, 1, rings) == if ok then Some(out) else None
  {
    ghost var reading := VerticesFrom(shape, 0, 1, rings);
    out, outPoly := rings, numPoly;
    var j := 0;
    var numParts := 1;
    while j < |shape.vertices|
      invariant VertexLoop(rings, shape, j, numParts, out, outPoly)
      invariant reading == VerticesFrom(shape, j, numParts, out)
    {
      var read;
      read, numParts, out, outPoly := ReadVertex(rings, shape, j, numParts, out, outPoly);
      if !read {
        return false, out, outPoly;
      }
      j := j + 1;
    }
    assert reading == Some(out);
    VertexLoopDone(rings, shape, numParts, out, outPoly);
    ok := true;
  }

  /** After the last vertex, the loop state is the result SplitShape promises. */
  lemma VertexLoopDone(base: seq<Ring>, shape: Shape, numParts: int, out: seq<Ring>, outPoly: int)
    requires |shape.vertices| >= 1
    requires VertexLoop(base, shape, |shape.vertices|, numParts, out, outPoly)
    ensures outPoly == |out| - 1 && out != []
    ensures Flatten(out) == Flatten(base) + shape.vertices
    ensures forall k :: 0 <= k < |out| ==> out[k] != []
    ensures WellFormedParts(shape) ==> out == base + ShapeRings(shape)
  {
    var n := |shape.vertices|;
    assert shape.vertices[..n] == shape.vertices;
    if WellFormedParts(shape) {
      assert PartsRead(base, shape, n, numParts, out);
      assert numParts == |shape.partStarts|;
      assert out == base + PartialRings(shape, |shape.partStarts| - 1, n);
      PartialRingsComplete(shape);
    }
  }
}
