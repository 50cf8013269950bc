// Consequences of the Vietoris-Rips specification in module Rips: symmetry of
// the edge test, growth of the complex with the radius, the degenerate inputs,
// and small worked configurations.
module RipsProperties {
  import opened Geometry
  import opened IndexSets
  import opened Rips

  /** Whether disks i and j meet does not depend on which is named first. */
  lemma MeetsSymmetric(points: seq<Point>, r: real, i: nat, j: nat)
    requires i < |points| && j < |points|
    ensures Meets(points, r, i, j) <==> Meets(points, r, j, i)
  {
    IntersectsSymmetric(points[i].x, points[i].y, r, points[j].x, points[j].y, r);
  }

  /** Two disks that meet at radius r still meet at any larger radius. */
  lemma MeetsMonotone(points: seq<Point>, r: real, r': real, i: nat, j: nat)
    requires 0.0 <= r <= r'
    requires i < |points| && j < |points|
    requires Meets(points, r, i, j)
    ensures Meets(points, r', i, j)
  {
    IntersectsMonotone(points[i].x, points[i].y, points[j].x, points[j].y, r, r, r', r');
  }

  /** Growing the radius never removes a line. */
  lemma LinesMonotone(points: seq<Point>, r: real, r': real)
    requires 0.0 <= r <= r'
    ensures forall e :: e in Lines(points, r) ==> e in Lines(points, r')
  {
    LinesSpec(points, r);
    LinesSpec(points, r');
    forall e | e in Lines(points, r)
      ensures e in Lines(points, r')
    {
      MeetsMonotone(points, r, r', e.0, e.1);
    }
  }

  /** Growing the radius never removes a triangle. */
  lemma TrianglesMonotone(points: seq<Point>, r: real, r': real)
    requires 0.0 <= r <= r'
    ensures forall t :: t in Triangles(points, r) ==> t in Triangles(points, r')
  {
    TrianglesSpec(points, r);
    TrianglesSpec(points, r');
    forall t | t in Triangles(points, r)
      ensures t in Triangles(points, r')
    {
      MeetsMonotone(points, r, r', t.0, t.1);
      MeetsMonotone(points, r, r', t.0, t.2);
      MeetsMonotone(points, r, r', t.1, t.2);
    }
  }

  /** No points, or a single point, give no lines and no triangles. */
  lemma AtMostOnePoint(points: seq<Point>, r: real)
    requires |points| <= 1
    ensures Lines(points, r) == []
    ensures Triangles(points, r) == []
  {
    var adj := AdjacencyTable(points, r);
    if |points| == 1 {
      assert AdjacencySet(points, r, 0) == [];
      assert LinesBefore(points, r, 1) == LinesBefore(points, r, 0) + Row(0, []);
      assert adj[0] == [];
      assert TrianglesBefore(adj, 1) == TrianglesBefore(adj, 0) + RowTriangles(adj, 0, []);
    }
    assert Triangles(points, r) == TrianglesBefore(adj, |points|);
  }

  /** Fewer than three points give no triangle. */
  lemma FewerThanThreePoints(points: seq<Point>, r: real)
    requires |points| < 3
    ensures Triangles(points, r) == []
  {
    if |points| == 2 {
      var adj := AdjacencyTable(points, r);
      assert Neighbours(points, r, 0, 1) == [];
      assert adj[1] == [];
      assert adj[0] == [] || adj[0] == [1];
      assert Intersection(adj[0], adj[1]) == [] by {
        IntersectionMembers(adj[0], adj[1]);
      }
      assert RowTriangles(adj, 0, adj[0]) == [];
      assert RowTriangles(adj, 1, adj[1]) == [];
      assert TrianglesBefore(adj, 1) == [];
      assert Triangles(points, r) == TrianglesBefore(adj, 2);
    } else {
      AtMostOnePoint(points, r);
    }
  }

  /**
   * Two points at distance d: the closed test puts the line [0, 1] in the
   * complex exactly when d <= 2r, tangent disks included.
   */
  lemma PairIsLineIffWithinTwoRadii(p: Point, q: Point, r: real, d: real)
    requires 0.0 <= r && 0.0 <= d
    requires d * d == Distance2(p.x, p.y, q.x, q.y)
    ensures d <= 2.0 * r ==> Lines([p, q], r) == [(0, 1)]
    ensures d > 2.0 * r ==> Lines([p, q], r) == []
  {
    var points := [p, q];
    IntersectsIffWithinSumOfRadii(p.x, p.y, r, q.x, q.y, r, d);
    assert Meets(points, r, 0, 1) <==> d <= 2.0 * r;
    assert Neighbours(points, r, 0, 1) == [];
    assert AdjacencySet(points, r, 1) == [];
    assert LinesBefore(points, r, 2) == LinesBefore(points, r, 1) + Row(1, []);
    if d <= 2.0 * r {
      assert AdjacencySet(points, r, 0) == [1];
      assert Row(0, [1]) == [(0, 1)];
      assert LinesBefore(points, r, 1) == [(0, 1)];
    } else {
      assert AdjacencySet(points, r, 0) == [];
      assert LinesBefore(points, r, 1) == [];
    }
  }

  /** The four points (0,0), (1,0), (0,1), (10,10). */
  function CornerPoints(): seq<Point>
  {
    [Point(0.0, 0.0), Point(1.0, 0.0), Point(0.0, 1.0), Point(10.0, 10.0)]
  }

  lemma CornerMeets()
    ensures Meets(CornerPoints(), 1.0, 0, 1) && Meets(CornerPoints(), 1.0, 0, 2)
    ensures Meets(CornerPoints(), 1.0, 1, 2)
    ensures !Meets(CornerPoints(), 1.0, 0, 3) && !Meets(CornerPoints(), 1.0, 1, 3)
    ensures !Meets(CornerPoints(), 1.0, 2, 3)
  {
  }

  lemma CornerAdjacency()
    ensures AdjacencyTable(CornerPoints(), 1.0) == [[1, 2], [2], [], []]
  {
    var points := CornerPoints();
    CornerMeets();
    assert Neighbours(points, 1.0, 0, 2) == [1];
    assert Neighbours(points, 1.0, 0, 3) == [1, 2];
    assert AdjacencySet(points, 1.0, 0) == [1, 2];
    assert Neighbours(points, 1.0, 1, 3) == [2];
    assert AdjacencySet(points, 1.0, 1) == [2];
    assert Neighbours(points, 1.0, 2, 3) == [];
    assert AdjacencySet(points, 1.0, 2) == [];
    assert AdjacencySet(points, 1.0, 3) == [];
  }

  /**
   * Points (0,0), (1,0), (0,1), (10,10) with radius 1: points 1 and 2 are
   * sqrt 2 <= 2 apart, so the first three points are pairwise joined and form
   * one triangle; point 3 stays isolated.
   */
  lemma UnitSquareCorner()
    ensures Lines(CornerPoints(), 1.0) == [(0, 1), (0, 2), (1, 2)]
    ensures Triangles(CornerPoints(), 1.0) == [(0, 1, 2)]
  {
    CornerLines();
    CornerTriangles();
  }

  lemma CornerLines()
    ensures Lines(CornerPoints(), 1.0) == [(0, 1), (0, 2), (1, 2)]
  {
    var points := CornerPoints();
    var adj := AdjacencyTable(points, 1.0);
    CornerAdjacency();
    assert AdjacencySet(points, 1.0, 0) == adj[0] == [1, 2];
    assert AdjacencySet(points, 1.0, 1) == adj[1] == [2];
    assert AdjacencySet(points, 1.0, 2) == adj[2] == [];
    assert AdjacencySet(points, 1.0, 3) == adj[3] == [];
    assert Row(0, [1, 2]) == [(0, 1), (0, 2)];
    assert LinesBefore(points, 1.0, 1) == [(0, 1), (0, 2)];
    assert LinesBefore(points, 1.0, 2) == [(0, 1), (0, 2), (1, 2)];
    assert LinesBefore(points, 1.0, 3) == LinesBefore(points, 1.0, 2);
  }

  lemma CornerTriangles()
    ensures Triangles(CornerPoints(), 1.0) == [(0, 1, 2)]
  {
    CornerAdjacency();
    AdjacencyTableShape(CornerPoints(), 1.0);
    CornerTableTriangles(AdjacencyTable(CornerPoints(), 1.0));
  }

  /** The triangle pass over the adjacency table of the four corner points. */
  lemma CornerTableTriangles(adj: seq<seq<nat>>)
    requires HigherNeighbours(adj)
    requires adj == [[1, 2], [2], [], []]
    ensures TrianglesBefore(adj, 4) == [(0, 1, 2)]
  {
    CornerFirstRow(adj);
    assert RowTriangles(adj, 1, [2]) == [] by {
      assert Intersection([2], []) == [];
      assert RowTriangles(adj, 1, []) == [];
    }
    assert TrianglesBefore(adj, 1) == [(0, 1, 2)];
    assert TrianglesBefore(adj, 2) == [(0, 1, 2)];
    assert TrianglesBefore(adj, 3) == [(0, 1, 2)];
  }

  lemma CornerFirstRow(adj: seq<seq<nat>>)
    requires |adj| == 4 && adj[0] == [1, 2] && adj[1] == [2] && adj[2] == []
    ensures RowTriangles(adj, 0, [1, 2]) == [(0, 1, 2)]
  {
    CornerIntersections();
    var js := [1, 2];
    assert js[..1] == [1];
    assert [1][..0] == [];
    assert Fan(0, 2, []) == [];
    assert Fan(0, 1, [2]) == [(0, 1, 2)] by {
      assert [2][..0] == [];
    }
    assert RowTriangles(adj, 0, []) == [];
    assert RowTriangles(adj, 0, [1]) == [(0, 1, 2)];
  }

  lemma CornerIntersections()
    ensures Intersection([1, 2], [2]) == [2]
    ensures Intersection([1, 2], []) == []
  {
    var a := [1, 2];
    assert a[..1] == [1];
    assert [1][..0] == [];
    assert Intersection([1], [2]) == [];
    assert Intersection([1], []) == [];
  }
}
