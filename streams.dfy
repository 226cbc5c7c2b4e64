/** The two lazy streams of a merged mesh, as cursor objects.

    Each merged stream of `MergeMesh<Head, Tail...>` owns a cursor over the
    head component's own stream and the merged stream of the tail; the
    stream of `MergeMesh<>` owns neither (`head == null && tail == null`)
    and is done from the start. Every merged stream carries a ghost view:
    `Elements`, what it yields from a fresh start, and `Position`, how many
    of them it has already moved past. */
module Streams {
  import opened Meshes

  /** The stream a single component hands out: a position into what it
      yields. */
  class Cursor<T> {
    const elements: seq<T>
    var position: nat

    ghost predicate Valid()
      reads this
    {
      position <= |elements|
    }

    constructor (s: seq<T>)
      ensures Valid() && elements == s && position == 0
    {
      elements := s;
      position := 0;
    }

    function Done(): bool
      reads this
    {
      position == |elements|
    }

    function Generate(): T
      requires Valid() && !Done()
      reads this
    {
      elements[position]
    }

    method Next()
      requires Valid() && !Done()
      modifies this
      ensures Valid() && position == old(position) + 1
    {
      position := position + 1;
    }

    method Reset()
      modifies this
      ensures Valid() && position == 0
    {
      position := 0;
    }
  }

  /** `count`: the number of elements a fresh stream over `s` yields,
      found by driving that stream to its end. */
  method CountElements<T>(s: seq<T>) returns (n: nat)
    ensures n == |s|
  {
    var c := new Cursor(s);
    n := 0;
    while !c.Done()
      invariant c.Valid() && c.elements == s
      invariant n == c.position
      decreases |s| - c.position
    {
      c.Next();
      n := n + 1;
    }
  }

  /** The vertex stream of a merged mesh. */
  class VertexStream<V> {
    const head: Cursor?<V>
    const tail: VertexStream?<V>
    ghost const Elements: seq<V>
    ghost const Repr: set<object>
    ghost var Position: nat

    /** The sub-streams own disjoint state; the head is drained before the
        tail moves; the stream yields the head's vertices, then the tail's. */
    ghost predicate Valid()
      reads this, Repr
      ensures Valid() ==> this in Repr && Position <= |Elements|
      decreases Repr
    {
      this in Repr &&
      if head == null then
        tail == null && Elements == [] && Position == 0
      else
        tail != null && head in Repr && tail in Repr && tail.Repr <= Repr &&
        this !in tail.Repr && head !in tail.Repr &&
        head.Valid() && tail.Valid() &&
        Elements == head.elements + tail.Elements &&
        (head.position < |head.elements| ==> tail.Position == 0) &&
        Position == head.position + tail.Position
    }

    /** The `vertices()` stream of `mesh`, at its start. */
    constructor (mesh: MergeMesh<V>)
      ensures Valid() && fresh(Repr)
      ensures Elements == mesh.Vertices() && Position == 0
      ensures mesh.Empty? <==> head == null
      ensures mesh.Merge? ==> head.elements == mesh.head.vertices
      decreases mesh
    {
      if mesh.Empty? {
        head, tail := null, null;
        Elements, Repr := [], {this};
      } else {
        var h := new Cursor(mesh.head.vertices);
        var t := new VertexStream(mesh.tail);
        head, tail := h, t;
        Elements, Repr := h.elements + t.Elements, {this, h} + t.Repr;
      }
      Position := 0;
    }

    /** Exhausted exactly when both sub-streams are. */
    function Done(): (r: bool)
      requires Valid()
      reads this, Repr
      ensures r <==> Position == |Elements|
      decreases Repr
    {
      head == null || (head.Done() && tail.Done())
    }

    /** The current vertex, unchanged: the head's while it lasts, then the
        tail's. */
    function Generate(): (v: V)
      requires Valid() && !Done()
      reads this, Repr
      ensures v == Elements[Position]
      decreases Repr
    {
      if !head.Done() then head.Generate() else tail.Generate()
    }

    /** Advances the head while it is not done, otherwise the tail. */
    method Next()
      requires Valid() && !Done()
      modifies Repr
      ensures Valid() && Position == old(Position) + 1
      decreases Repr
    {
      if !head.Done() {
        head.Next();
      } else {
        tail.Next();
      }
      Position := Position + 1;
    }

    /** Rewinds both sub-streams. */
    method Reset()
      requires Valid()
      modifies Repr
      ensures Valid() && Position == 0
      decreases Repr
    {
      if head != null {
        head.Reset();
        tail.Reset();
      }
      Position := 0;
    }
  }

  /** The triangle stream of a merged mesh. */
  class TriangleStream<V> {
    const head: Cursor?<Triangle>
    const tail: TriangleStream?<V>
    /** The vertex count of the head, fixed when the stream is built. */
    const headVertexCount: nat
    ghost const Elements: seq<Triangle>
    ghost const Repr: set<object>
    ghost var Position: nat

    /** As for `VertexStream`, except that the tail's triangles are yielded
        re-based by `headVertexCount`. */
    ghost predicate Valid()
      reads this, Repr
      ensures Valid() ==> this in Repr && Position <= |Elements|
      decreases Repr
    {
      this in Repr &&
      if head == null then
        tail == null && Elements == [] && Position == 0
      else
        tail != null && head in Repr && tail in Repr && tail.Repr <= Repr &&
        this !in tail.Repr && head !in tail.Repr &&
        head.Valid() && tail.Valid() &&
        Elements == head.elements + ShiftAll(tail.Elements, headVertexCount) &&
        (head.position < |head.elements| ==> tail.Position == 0) &&
        Position == head.position + tail.Position
    }

    /** The `triangles()` stream of `mesh`, at its start; the head's vertex
        count is found by counting a fresh vertex stream of the head. */
    constructor (mesh: MergeMesh<V>)
      ensures Valid() && fresh(Repr)
      ensures Elements == mesh.Triangles() && Position == 0
      ensures mesh.Empty? <==> head == null
      ensures mesh.Merge? ==> head.elements == mesh.head.triangles
      ensures mesh.Merge? ==> headVertexCount == |mesh.head.vertices|
      decreases mesh
    {
      if mesh.Empty? {
        head, tail, headVertexCount := null, null, 0;
        Elements, Repr := [], {this};
      } else {
        var h := new Cursor(mesh.head.triangles);
        var t := new TriangleStream(mesh.tail);
        var n := CountElements(mesh.head.vertices);
        head, tail, headVertexCount := h, t, n;
        Elements, Repr := h.elements + ShiftAll(t.Elements, n), {this, h} + t.Repr;
      }
      Position := 0;
    }

    /** Exhausted exactly when both sub-streams are. */
    function Done(): (r: bool)
      requires Valid()
      reads this, Repr
      ensures r <==> Position == |Elements|
      decreases Repr
    {
      head == null || (head.Done() && tail.Done())
    }

    /** The current triangle: the head's unchanged while it lasts, then the
        tail's with its three indices increased by `headVertexCount`. */
    function Generate(): (t: Triangle)
      requires Valid() && !Done()
      reads this, Repr
      ensures t == Elements[Position]
      decreases Repr
    {
      if !head.Done() then head.Generate() else Shifted(tail.Generate(), headVertexCount)
    }

    /** Advances the head while it is not done, otherwise the tail. */
    method Next()
      requires Valid() && !Done()
      modifies Repr
      ensures Valid() && Position == old(Position) + 1
      decreases Repr
    {
      if !head.Done() {
        head.Next();
      } else {
        tail.Next();
      }
      Position := Position + 1;
    }

    /** Rewinds both sub-streams; `headVertexCount` is kept as it is. */
    method Reset()
      requires Valid()
      modifies Repr
      ensures Valid() && Position == 0
      decreases Repr
    {
      if head != null {
        head.Reset();
        tail.Reset();
      }
      Position := 0;
    }
  }

  /** Drives a vertex stream to its end, collecting what it yields. */
  method CollectVertices<V>(s: VertexStream<V>) returns (out: seq<V>)
    requires s.Valid()
    modifies s.Repr
    ensures s.Valid() && s.Done()
    ensures out == s.Elements[old(s.Position)..]
  {
    ghost var start := s.Position;
    out := [];
    while !s.Done()
      invariant s.Valid()
      invariant start <= s.Position
      invariant out == s.Elements[start..s.Position]
      decreases |s.Elements| - s.Position
    {
      var v := s.Generate();
      assert s.Elements[start..s.Position + 1] == s.Elements[start..s.Position] + [v];
      out := out + [v];
      s.Next();
    }
  }

  /** Drives a triangle stream to its end, collecting what it yields. */
  method CollectTriangles<V>(s: TriangleStream<V>) returns (out: seq<Triangle>)
    requires s.Valid()
    modifies s.Repr
    ensures s.Valid() && s.Done()
    ensures out == s.Elements[old(s.Position)..]
  {
    ghost var start := s.Position;
    out := [];
    while !s.Done()
      invariant s.Valid()
      invariant start <= s.Position
      invariant out == s.Elements[start..s.Position]
      decreases |s.Elements| - s.Position
    {
      var t := s.Generate();
      assert s.Elements[start..s.Position + 1] == s.Elements[start..s.Position] + [t];
      out := out + [t];
      s.Next();
    }
  }

  /** A fresh vertex stream yields the merged vertices; after a reset it
      yields them again. */
  method ReplayVertices<V>(mesh: MergeMesh<V>) returns (first: seq<V>, second: seq<V>)
    ensures first == mesh.Vertices() && second == first
  {
    var s := new VertexStream(mesh);
    first := CollectVertices(s);
    s.Reset();
    second := CollectVertices(s);
  }

  /** A fresh triangle stream yields the merged triangles; after a reset it
      yields them again. */
  method ReplayTriangles<V>(mesh: MergeMesh<V>) returns (first: seq<Triangle>, second: seq<Triangle>)
    ensures first == mesh.Triangles() && second == first
  {
    var s := new TriangleStream(mesh);
    first := CollectTriangles(s);
    s.Reset();
    second := CollectTriangles(s);
  }

  /** Resetting a vertex stream at any point and draining it yields
      everything a fresh stream yields. */
  method RestartVertices<V>(s: VertexStream<V>) returns (out: seq<V>)
    requires s.Valid()
    modifies s.Repr
    ensures out == s.Elements
  {
    s.Reset();
    out := CollectVertices(s);
  }

  /** Resetting a triangle stream at any point and draining it yields
      everything a fresh stream yields. */
  method RestartTriangles<V>(s: TriangleStream<V>) returns (out: seq<Triangle>)
    requires s.Valid()
    modifies s.Repr
    ensures out == s.Elements
  {
    s.Reset();
    out := CollectTriangles(s);
  }
}
