/** Value-level model of a merged mesh.

    A mesh component is seen through what its two streams yield from a fresh
    start: its vertex records and its triangles. `MergeMesh` mirrors the
    recursive list `MergeMesh<Head, Tail...>` terminated by `MergeMesh<>`;
    `Vertices()` and `Triangles()` are the sequences its two merged streams
    must produce. */
module Meshes {

  /** A triangle: three indices into the vertex stream of its mesh. */
  datatype Triangle = Triangle(v0: nat, v1: nat, v2: nat)

  /** A mesh component: everything its vertex stream and its triangle stream
      yield. Vertex records are opaque and only relayed. */
  datatype Mesh<V> = Mesh(vertices: seq<V>, triangles: seq<Triangle>)

  /** The ordered list of merged components; `Empty` is `MergeMesh<>`. */
  datatype MergeMesh<V> = Empty | Merge(head: Mesh<V>, tail: MergeMesh<V>)
  {
    /** The number of components. */
    function Count(): nat
    {
      match this
      case Empty => 0
      case Merge(_, t) => 1 + t.Count()
    }

    /** Component `k`, counting from the head. */
    function Component(k: nat): Mesh<V>
      requires k < Count()
    {
      match this
      case Merge(h, t) => if k == 0 then h else t.Component(k - 1)
    }

    /** Sum of the vertex counts of components `0 .. k-1`. */
    function VerticesBefore(k: nat): nat
      requires k <= Count()
    {
      match this
      case Empty => 0
      case Merge(h, t) => if k == 0 then 0 else |h.vertices| + t.VerticesBefore(k - 1)
    }

    /** Sum of the triangle counts of components `0 .. k-1`. */
    function TrianglesBefore(k: nat): nat
      requires k <= Count()
    {
      match this
      case Empty => 0
      case Merge(h, t) => if k == 0 then 0 else |h.triangles| + t.TrianglesBefore(k - 1)
    }

    /** What the merged vertex stream yields: the head's vertices, then the
        merged tail's. */
    function Vertices(): seq<V>
    {
      match this
      case Empty => []
      case Merge(h, t) => h.vertices + t.Vertices()
    }

    /** What the merged triangle stream yields: the head's triangles, then the
        merged tail's triangles re-based past the head's vertices. */
    function Triangles(): seq<Triangle>
    {
      match this
      case Empty => []
      case Merge(h, t) => h.triangles + ShiftAll(t.Triangles(), |h.vertices|)
    }

    /** The merged mesh seen as a component in its own right. */
    function AsMesh(): Mesh<V>
    {
      Mesh(Vertices(), Triangles())
    }
  }

  /** A triangle with each of its three indices increased by `k`. */
  function Shifted(t: Triangle, k: nat): Triangle
  {
    Triangle(t.v0 + k, t.v1 + k, t.v2 + k)
  }

  /** Every triangle of `ts` re-based by `k`, in the same order. */
  function ShiftAll(ts: seq<Triangle>, k: nat): (r: seq<Triangle>)
    ensures |r| == |ts|
    ensures forall i {:trigger r[i]} :: 0 <= i < |ts| ==> r[i] == Shifted(ts[i], k)
  {
    if ts == [] then [] else [Shifted(ts[0], k)] + ShiftAll(ts[1..], k)
  }

  /** The `mergeMesh` entry point: the merge of `ms`, in argument order. */
  function MergeMeshOf<V>(ms: seq<Mesh<V>>): (r: MergeMesh<V>)
    ensures r.Count() == |ms|
    ensures forall k :: 0 <= k < |ms| ==> r.Component(k) == ms[k]
    ensures ms == [] ==> r.Vertices() == [] && r.Triangles() == []
  {
    if ms == [] then Empty else Merge(ms[0], MergeMeshOf(ms[1..]))
  }

  /** Every index of every triangle addresses a vertex of the mesh. */
  ghost predicate WellFormed<V>(m: Mesh<V>)
  {
    forall i :: 0 <= i < |m.triangles| ==> InRange(m.triangles[i], |m.vertices|)
  }

  predicate InRange(t: Triangle, n: nat)
  {
    t.v0 < n && t.v1 < n && t.v2 < n
  }

  // ---------------------------------------------------------------------
  // Re-basing triangles

  lemma {:induction false} ShiftAllAppend(a: seq<Triangle>, b: seq<Triangle>, k: nat)
    ensures ShiftAll(a + b, k) == ShiftAll(a, k) + ShiftAll(b, k)
  {
    var l, r := ShiftAll(a + b, k), ShiftAll(a, k) + ShiftAll(b, k);
    assert |l| == |r|;
    forall i | 0 <= i < |l| ensures l[i] == r[i] {
      if i < |a| { assert (a + b)[i] == a[i]; } else { assert (a + b)[i] == b[i - |a|]; }
    }
  }

  /** Re-basing by `j` and then by `k` is re-basing by `j + k`. */
  lemma {:induction false} ShiftAllTwice(ts: seq<Triangle>, j: nat, k: nat)
    ensures ShiftAll(ShiftAll(ts, j), k) == ShiftAll(ts, j + k)
  {
    var l, r := ShiftAll(ShiftAll(ts, j), k), ShiftAll(ts, j + k);
    assert |l| == |r|;
    forall i | 0 <= i < |l| ensures l[i] == r[i] { }
  }

  /** Re-basing a tail that already holds a re-based part. */
  lemma RebaseAfterHead(hs: seq<Triangle>, ts: seq<Triangle>, us: seq<Triangle>, j: nat, k: nat)
    ensures hs + ShiftAll(ts + ShiftAll(us, j), k) == (hs + ShiftAll(ts, k)) + ShiftAll(us, j + k)
  {
    ShiftAllAppend(ts, ShiftAll(us, j), k);
    ShiftAllTwice(us, j, k);
  }

  lemma {:induction false} ShiftAllZero(ts: seq<Triangle>)
    ensures ShiftAll(ts, 0) == ts
  {
    var l := ShiftAll(ts, 0);
    forall i | 0 <= i < |ts| ensures l[i] == ts[i] { }
  }

  // ---------------------------------------------------------------------
  // Counts and positions

  /** The merged vertex stream yields the sum of the component vertex counts. */
  lemma {:induction false} VertexCount<V>(m: MergeMesh<V>)
    ensures |m.Vertices()| == m.VerticesBefore(m.Count())
  {
    match m
    case Empty =>
    case Merge(h, t) => VertexCount(t);
  }

  /** The merged triangle stream yields the sum of the component triangle counts. */
  lemma {:induction false} TriangleCount<V>(m: MergeMesh<V>)
    ensures |m.Triangles()| == m.TrianglesBefore(m.Count())
  {
    match m
    case Empty =>
    case Merge(h, t) => TriangleCount(t);
  }

  /** Vertex `j` of component `k` is relayed unchanged, right after the
      vertices of the components before it. */
  lemma {:induction false} VertexOfComponent<V>(m: MergeMesh<V>, k: nat, j: nat)
    requires k < m.Count() && j < |m.Component(k).vertices|
    ensures m.VerticesBefore(k) + j < |m.Vertices()|
    ensures m.Vertices()[m.VerticesBefore(k) + j] == m.Component(k).vertices[j]
  {
    match m
    case Merge(h, t) =>
      if k == 0 {
        assert m.Vertices() == h.vertices + t.Vertices();
      } else {
        VertexOfComponent(t, k - 1, j);
        VertexInTail(h, t, t.VerticesBefore(k - 1) + j);
      }
  }

  lemma VertexInTail<V>(h: Mesh<V>, t: MergeMesh<V>, p: nat)
    requires p < |t.Vertices()|
    ensures |h.vertices| + p < |Merge(h, t).Vertices()|
    ensures Merge(h, t).Vertices()[|h.vertices| + p] == t.Vertices()[p]
  {
    assert Merge(h, t).Vertices() == h.vertices + t.Vertices();
  }

  /** Triangle `j` of component `k` appears right after the triangles of the
      components before it, with its indices shifted by the vertex count of
      those components. */
  lemma {:induction false} TriangleOfComponent<V>(m: MergeMesh<V>, k: nat, j: nat)
    requires k < m.Count() && j < |m.Component(k).triangles|
    ensures m.TrianglesBefore(k) + j < |m.Triangles()|
    ensures m.Triangles()[m.TrianglesBefore(k) + j] == Shifted(m.Component(k).triangles[j], m.VerticesBefore(k))
  {
    match m
    case Merge(h, t) =>
      if k == 0 {
        assert m.Triangles() == h.triangles + ShiftAll(t.Triangles(), |h.vertices|);
      } else {
        TriangleOfComponent(t, k - 1, j);
        var c := t.Component(k - 1).triangles[j];
        TriangleInTail(h, t, t.TrianglesBefore(k - 1) + j);
        assert Shifted(Shifted(c, t.VerticesBefore(k - 1)), |h.vertices|) == Shifted(c, m.VerticesBefore(k));
      }
  }

  lemma TriangleInTail<V>(h: Mesh<V>, t: MergeMesh<V>, p: nat)
    requires p < |t.Triangles()|
    ensures |h.triangles| + p < |Merge(h, t).Triangles()|
    ensures Merge(h, t).Triangles()[|h.triangles| + p] == Shifted(t.Triangles()[p], |h.vertices|)
  {
    var r := ShiftAll(t.Triangles(), |h.vertices|);
    assert Merge(h, t).Triangles() == h.triangles + r;
    assert (h.triangles + r)[|h.triangles| + p] == r[p];
  }

  /** Re-basing keeps every merged triangle inside the merged vertex range. */
  lemma {:induction false} MergeKeepsWellFormed<V>(m: MergeMesh<V>)
    requires forall k :: 0 <= k < m.Count() ==> WellFormed(m.Component(k))
    ensures WellFormed(m.AsMesh())
  {
    match m
    case Empty =>
    case Merge(h, t) =>
      assert WellFormed(m.Component(0));
      forall k | 0 <= k < t.Count() ensures WellFormed(t.Component(k)) {
        assert m.Component(k + 1) == t.Component(k);
      }
      MergeKeepsWellFormed(t);
      var n := |m.Vertices()|;
      forall i | 0 <= i < |m.Triangles()| ensures InRange(m.Triangles()[i], n) {
        if i >= |h.triangles| {
          var u := t.Triangles()[i - |h.triangles|];
          assert InRange(u, |t.Vertices()|);
        }
      }
  }

  // ---------------------------------------------------------------------
  // Empty list, single component, nesting

  /** Merging one component yields that component unchanged. */
  lemma MergeOfOne<V>(c: Mesh<V>)
    ensures MergeMeshOf([c]).AsMesh() == c
  {
    assert MergeMeshOf([c]) == Merge(c, Empty);
    assert c.vertices + [] == c.vertices;
    assert c.triangles + [] == c.triangles;
  }

  /** Merging `a + b` appends the merged vertices of `b` to those of `a`. */
  lemma {:induction false} AppendVertices<V>(a: seq<Mesh<V>>, b: seq<Mesh<V>>)
    ensures MergeMeshOf(a + b).Vertices() == MergeMeshOf(a).Vertices() + MergeMeshOf(b).Vertices()
  {
    if a != [] {
      assert (a + b)[1..] == a[1..] + b;
      AppendVertices(a[1..], b);
    } else {
      assert a + b == b;
    }
  }

  /** Merging `a + b` appends the merged triangles of `b`, re-based past all
      vertices of `a`, to those of `a`. */
  lemma {:induction false} AppendTriangles<V>(a: seq<Mesh<V>>, b: seq<Mesh<V>>)
    ensures MergeMeshOf(a + b).Triangles()
         == MergeMeshOf(a).Triangles() + ShiftAll(MergeMeshOf(b).Triangles(), |MergeMeshOf(a).Vertices()|)
  {
    var tb := MergeMeshOf(b).Triangles();
    if a != [] {
      var h, ta := a[0], MergeMeshOf(a[1..]);
      assert (a + b)[1..] == a[1..] + b;
      assert MergeMeshOf(a + b) == Merge(h, MergeMeshOf(a[1..] + b));
      assert MergeMeshOf(a) == Merge(h, ta);
      AppendTriangles(a[1..], b);
      RebaseAfterHead(h.triangles, ta.Triangles(), tb, |ta.Vertices()|, |h.vertices|);
    } else {
      assert a + b == b;
      ShiftAllZero(tb);
    }
  }

  /** Meshes that merge alike keep merging alike behind a common prefix. */
  lemma AppendCongruent<V>(a: seq<Mesh<V>>, x: seq<Mesh<V>>, y: seq<Mesh<V>>)
    requires MergeMeshOf(x).AsMesh() == MergeMeshOf(y).AsMesh()
    ensures MergeMeshOf(a + x).AsMesh() == MergeMeshOf(a + y).AsMesh()
  {
    AppendVertices(a, x);
    AppendVertices(a, y);
    AppendTriangles(a, x);
    AppendTriangles(a, y);
  }

  /** A merge placed first among components merges like its own components. */
  lemma MergeAsHead<V>(b: seq<Mesh<V>>, c: seq<Mesh<V>>)
    ensures MergeMeshOf([MergeMeshOf(b).AsMesh()] + c).AsMesh() == MergeMeshOf(b + c).AsMesh()
  {
    var nested := [MergeMeshOf(b).AsMesh()] + c;
    assert nested[1..] == c;
    assert MergeMeshOf(nested) == Merge(MergeMeshOf(b).AsMesh(), MergeMeshOf(c));
    AppendVertices(b, c);
    AppendTriangles(b, c);
  }

  /** Merging a merge in place of its components changes nothing:
      merge(a ++ [merge(b)] ++ c) is the same mesh as merge(a ++ b ++ c). */
  lemma NestedMerge<V>(a: seq<Mesh<V>>, b: seq<Mesh<V>>, c: seq<Mesh<V>>)
    ensures MergeMeshOf(a + [MergeMeshOf(b).AsMesh()] + c).AsMesh() == MergeMeshOf(a + b + c).AsMesh()
  {
    assert a + [MergeMeshOf(b).AsMesh()] + c == a + ([MergeMeshOf(b).AsMesh()] + c);
    assert a + b + c == a + (b + c);
    MergeAsHead(b, c);
    AppendCongruent(a, [MergeMeshOf(b).AsMesh()] + c, b + c);
  }

  /** Merging A (3 vertices, triangle {0,1,2}) with B (4 vertices, triangles
      {0,1,2} and {1,2,3}) yields 7 vertices and the triangles {0,1,2},
      {3,4,5}, {4,5,6}. */
  lemma MergeExample(a: seq<int>, b: seq<int>)
    requires |a| == 3 && |b| == 4
    ensures var m := MergeMeshOf([Mesh(a, [Triangle(0, 1, 2)]),
                                  Mesh(b, [Triangle(0, 1, 2), Triangle(1, 2, 3)])]);
            m.Vertices() == a + b &&
            m.Triangles() == [Triangle(0, 1, 2), Triangle(3, 4, 5), Triangle(4, 5, 6)]
  {
    var ma := Mesh(a, [Triangle(0, 1, 2)]);
    var mb := Mesh(b, [Triangle(0, 1, 2), Triangle(1, 2, 3)]);
    var m := MergeMeshOf([ma, mb]);
    assert [ma, mb][1..] == [mb] && [mb][1..] == [];
    assert MergeMeshOf([mb]) == Merge(mb, Empty);
    assert m == Merge(ma, Merge(mb, Empty));
    assert b + [] == b;
  }
}
