// The Vietoris-Rips kernel of simplicial.js (`vietorisrips`): the 1-skeleton
// (lines) and 2-skeleton (triangles) of the Rips complex of a finite list of
// planar points, all disks having the same radius.
//
// The specification functions below describe the two outputs in the order the
// source produces them; the lemmas say what those outputs are as sets (the
// intersecting pairs and the 3-cliques), that they come out in lexicographic
// order and hence without repeats, and that they only grow with the radius.
module Rips {
  import opened Geometry
  import opened IndexSets

  /** A point of the input list: `{x, y}`. */
  datatype Point = Point(x: real, y: real)

  type Line = (nat, nat)
  type Triangle = (nat, nat, nat)

  /** Whether the disks of radius `r` about points i and j meet. */
  predicate Meets(points: seq<Point>, r: real, i: nat, j: nat)
    requires i < |points| && j < |points|
  {
    DoCircleIntersects(points[i].x, points[i].y, r, points[j].x, points[j].y, r)
  }

  /** [i, j] is an edge of the complex: i < j and their disks meet. */
  predicate IsEdge(points: seq<Point>, r: real, e: Line)
  {
    e.0 < e.1 < |points| && Meets(points, r, e.0, e.1)
  }

  /** [i, j, k] is a 2-simplex: i < j < k and the three disks pairwise meet. */
  predicate IsTriangle(points: seq<Point>, r: real, t: Triangle)
  {
    && t.0 < t.1 < t.2 < |points|
    && Meets(points, r, t.0, t.1)
    && Meets(points, r, t.0, t.2)
    && Meets(points, r, t.1, t.2)
  }

  /** Lexicographic order on lines. */
  predicate LineLess(p: Line, q: Line)
  {
    p.0 < q.0 || (p.0 == q.0 && p.1 < q.1)
  }

  /** Lexicographic order on triangles. */
  predicate TriangleLess(p: Triangle, q: Triangle)
  {
    p.0 < q.0 || (p.0 == q.0 && (p.1 < q.1 || (p.1 == q.1 && p.2 < q.2)))
  }

  // ---------------------------------------------------------------------------
  // First pass: the adjacency sets and the lines

  /** The indices j with i < j < hi whose disk meets that of i, ascending. */
  function Neighbours(points: seq<Point>, r: real, i: nat, hi: nat): seq<nat>
    requires i < hi <= |points|
    decreases hi
  {
    if hi == i + 1 then []
    else
      var prev := Neighbours(points, r, i, hi - 1);
      if Meets(points, r, i, hi - 1) then prev + [hi - 1] else prev
  }

  /** `intersectionsWith[i]`: the higher-indexed points whose disks meet that of i. */
  function AdjacencySet(points: seq<Point>, r: real, i: nat): seq<nat>
    requires i < |points|
  {
    Neighbours(points, r, i, |points|)
  }

  /** `intersectionsWith` after the first pass. */
  function AdjacencyTable(points: seq<Point>, r: real): (adj: seq<seq<nat>>)
    ensures |adj| == |points|
  {
    seq(|points|, i requires 0 <= i < |points| => AdjacencySet(points, r, i))
  }

  /** e is [i, j] for some j of js. */
  predicate RowLine(i: nat, js: seq<nat>, e: Line)
  {
    e.0 == i && e.1 in js
  }

  /** e is an edge whose smaller end is below m. */
  predicate EdgeBefore(points: seq<Point>, r: real, m: nat, e: Line)
  {
    e.0 < m && IsEdge(points, r, e)
  }

  /** The lines [i, j] for j in js, in that order. */
  function Row(i: nat, js: seq<nat>): seq<Line>
  {
    if js == [] then [] else Row(i, js[..|js| - 1]) + [(i, js[|js| - 1])]
  }

  /** `lines` once the outer loop of the first pass has handled points 0 .. m-1. */
  function LinesBefore(points: seq<Point>, r: real, m: nat): seq<Line>
    requires m <= |points|
  {
    if m == 0 then [] else LinesBefore(points, r, m - 1) + Row(m - 1, AdjacencySet(points, r, m - 1))
  }

  /** `lines` as returned. */
  function Lines(points: seq<Point>, r: real): seq<Line>
  {
    LinesBefore(points, r, |points|)
  }

  lemma {:induction false} NeighboursMembers(points: seq<Point>, r: real, i: nat, hi: nat)
    requires i < hi <= |points|
    ensures forall x: nat :: x in Neighbours(points, r, i, hi) <==> i < x < hi && Meets(points, r, i, x)
    decreases hi
  {
    if hi > i + 1 {
      NeighboursMembers(points, r, i, hi - 1);
    }
  }

  lemma {:induction false} NeighboursIncreasing(points: seq<Point>, r: real, i: nat, hi: nat)
    requires i < hi <= |points|
    ensures Increasing(Neighbours(points, r, i, hi))
    decreases hi
  {
    if hi > i + 1 {
      NeighboursIncreasing(points, r, i, hi - 1);
      NeighboursMembers(points, r, i, hi - 1);
      AscendingAppend<nat>(Neighbours(points, r, i, hi - 1), [hi - 1], NatLess);
    }
  }

  /**
   * `intersectionsWith[i]` holds exactly the j with i < j < n whose disks meet
   * that of i, in ascending order.
   */
  lemma AdjacencySetSpec(points: seq<Point>, r: real, i: nat)
    requires i < |points|
    ensures forall j: nat :: j in AdjacencySet(points, r, i) <==> IsEdge(points, r, (i, j))
    ensures Increasing(AdjacencySet(points, r, i))
  {
    NeighboursMembers(points, r, i, |points|);
    NeighboursIncreasing(points, r, i, |points|);
  }

  lemma {:induction false} RowMembers(i: nat, js: seq<nat>)
    ensures forall e :: e in Row(i, js) <==> RowLine(i, js, e)
  {
    if js != [] {
      RowMembers(i, js[..|js| - 1]);
      assert js == js[..|js| - 1] + [js[|js| - 1]];
    }
  }

  lemma {:induction false} RowAscending(i: nat, js: seq<nat>)
    requires Increasing(js)
    ensures Ascending(Row(i, js), LineLess)
  {
    if js != [] {
      var init, last := js[..|js| - 1], js[|js| - 1];
      assert Increasing(init);
      RowAscending(i, init);
      RowMembers(i, init);
      forall e | e in Row(i, init)
        ensures LineLess(e, (i, last))
      {
        var k :| 0 <= k < |init| && init[k] == e.1;
        assert NatLess(js[k], js[|js| - 1]);
      }
      AscendingAppend(Row(i, init), [(i, last)], LineLess);
    }
  }

  lemma {:induction false} LinesBeforeMembers(points: seq<Point>, r: real, m: nat)
    requires m <= |points|
    ensures forall e :: e in LinesBefore(points, r, m) <==> EdgeBefore(points, r, m, e)
  {
    if m > 0 {
      LinesBeforeMembers(points, r, m - 1);
      RowMembers(m - 1, AdjacencySet(points, r, m - 1));
      AdjacencySetSpec(points, r, m - 1);
    }
  }

  lemma {:induction false} LinesBeforeAscending(points: seq<Point>, r: real, m: nat)
    requires m <= |points|
    ensures Ascending(LinesBefore(points, r, m), LineLess)
  {
    if m > 0 {
      LinesBeforeAscending(points, r, m - 1);
      LinesBeforeMembers(points, r, m - 1);
      AdjacencySetSpec(points, r, m - 1);
      RowAscending(m - 1, AdjacencySet(points, r, m - 1));
      RowMembers(m - 1, AdjacencySet(points, r, m - 1));
      AscendingAppend(LinesBefore(points, r, m - 1), Row(m - 1, AdjacencySet(points, r, m - 1)), LineLess);
    }
  }

  /**
   * The lines are exactly the pairs i < j < n whose disks meet, each once, in
   * lexicographic order.
   */
  lemma LinesSpec(points: seq<Point>, r: real)
    ensures forall e :: e in Lines(points, r) <==> IsEdge(points, r, e)
    ensures Ascending(Lines(points, r), LineLess)
    ensures NoDuplicates(Lines(points, r))
  {
    LinesBeforeMembers(points, r, |points|);
    LinesBeforeAscending(points, r, |points|);
    AscendingNoDuplicates(Lines(points, r), LineLess);
  }

  // ---------------------------------------------------------------------------
  // Second pass: the triangles, from any adjacency table of higher neighbours

  /**
   * A table whose i-th set lists, in ascending order, indices above i and
   * below the table's length: the shape the first pass produces.
   */
  ghost predicate HigherNeighbours(adj: seq<seq<nat>>)
  {
    && InRange(adj)
    && forall i :: 0 <= i < |adj| ==>
      Increasing(adj[i]) && forall k :: 0 <= k < |adj[i]| ==> i < adj[i][k]
  }

  /** Every index a set of the table holds is an index of the table. */
  ghost predicate InRange(adj: seq<seq<nat>>)
  {
    forall i, k :: 0 <= i < |adj| && 0 <= k < |adj[i]| ==> adj[i][k] < |adj|
  }

  /** t is [i, j, k] for some k of ks. */
  predicate FanTriangle(i: nat, j: nat, ks: seq<nat>, t: Triangle)
  {
    t.0 == i && t.1 == j && t.2 in ks
  }

  /** t is [i, j, k] with j in js and k in the sets of both i and j. */
  predicate RowTriangle(adj: seq<seq<nat>>, i: nat, js: seq<nat>, t: Triangle)
  {
    i < |adj| && t.0 == i && t.1 in js && t.2 in adj[i] && t.1 < |adj| && t.2 in adj[t.1]
  }

  /** t is [i, j, k] with i < m, j and k in the set of i, and k in the set of j. */
  predicate TableTriangle(adj: seq<seq<nat>>, m: nat, t: Triangle)
  {
    t.0 < m <= |adj| && t.1 in adj[t.0] && t.2 in adj[t.0] && t.1 < |adj| && t.2 in adj[t.1]
  }

  /** The triangles [i, j, k] for k in ks, in that order. */
  function Fan(i: nat, j: nat, ks: seq<nat>): seq<Triangle>
  {
    if ks == [] then [] else Fan(i, j, ks[..|ks| - 1]) + [(i, j, ks[|ks| - 1])]
  }

  /** The triangles pushed while the middle loop walks js for point i. */
  function RowTriangles(adj: seq<seq<nat>>, i: nat, js: seq<nat>): seq<Triangle>
    requires i < |adj|
    requires forall k :: 0 <= k < |js| ==> js[k] < |adj|
  {
    if js == [] then []
    else
      var j := js[|js| - 1];
      RowTriangles(adj, i, js[..|js| - 1]) + Fan(i, j, Intersection(adj[i], adj[j]))
  }

  /** `triangles` once the outer loop of the second pass has handled points 0 .. m-1. */
  function TrianglesBefore(adj: seq<seq<nat>>, m: nat): seq<Triangle>
    requires m <= |adj|
    requires InRange(adj)
  {
    if m == 0 then [] else TrianglesBefore(adj, m - 1) + RowTriangles(adj, m - 1, adj[m - 1])
  }

  /** `triangles` as returned. */
  function Triangles(points: seq<Point>, r: real): seq<Triangle>
  {
    AdjacencyTableShape(points, r);
    TrianglesBefore(AdjacencyTable(points, r), |points|)
  }

  lemma AdjacencyTableShape(points: seq<Point>, r: real)
    ensures HigherNeighbours(AdjacencyTable(points, r))
  {
    var adj := AdjacencyTable(points, r);
    forall i | 0 <= i < |adj|
      ensures Increasing(adj[i]) && forall k :: 0 <= k < |adj[i]| ==> i < adj[i][k] < |adj|
    {
      var s := AdjacencySet(points, r, i);
      AdjacencySetSpec(points, r, i);
      assert forall k :: 0 <= k < |s| ==> s[k] in s;
    }
  }

  lemma {:induction false} FanMembers(i: nat, j: nat, ks: seq<nat>)
    ensures forall t :: t in Fan(i, j, ks) <==> FanTriangle(i, j, ks, t)
  {
    if ks != [] {
      FanMembers(i, j, ks[..|ks| - 1]);
      assert ks == ks[..|ks| - 1] + [ks[|ks| - 1]];
    }
  }

  lemma {:induction false} FanAscending(i: nat, j: nat, ks: seq<nat>)
    requires Increasing(ks)
    ensures Ascending(Fan(i, j, ks), TriangleLess)
  {
    if ks != [] {
      var init, last := ks[..|ks| - 1], ks[|ks| - 1];
      assert Increasing(init);
      FanAscending(i, j, init);
      FanMembers(i, j, init);
      forall t | t in Fan(i, j, init)
        ensures TriangleLess(t, (i, j, last))
      {
        var k :| 0 <= k < |init| && init[k] == t.2;
        assert NatLess(ks[k], ks[|ks| - 1]);
      }
      AscendingAppend(Fan(i, j, init), [(i, j, last)], TriangleLess);
    }
  }

  lemma {:induction false} RowTrianglesMembers(adj: seq<seq<nat>>, i: nat, js: seq<nat>)
    requires i < |adj|
    requires forall k :: 0 <= k < |js| ==> js[k] < |adj|
    ensures forall t :: t in RowTriangles(adj, i, js) <==> RowTriangle(adj, i, js, t)
  {
    if js != [] {
      var init, j := js[..|js| - 1], js[|js| - 1];
      assert js == init + [j];
      RowTrianglesMembers(adj, i, init);
      FanMembers(i, j, Intersection(adj[i], adj[j]));
      IntersectionMembers(adj[i], adj[j]);
    }
  }

  lemma {:induction false} RowTrianglesAscending(adj: seq<seq<nat>>, i: nat, js: seq<nat>)
    requires i < |adj| && HigherNeighbours(adj)
    requires forall k :: 0 <= k < |js| ==> js[k] < |adj|
    requires Increasing(js)
    ensures Ascending(RowTriangles(adj, i, js), TriangleLess)
  {
    if js != [] {
      var init, j := js[..|js| - 1], js[|js| - 1];
      assert Increasing(init);
      RowTrianglesAscending(adj, i, init);
      RowTrianglesMembers(adj, i, init);
      IntersectionIncreasing(adj[i], adj[j]);
      FanAscending(i, j, Intersection(adj[i], adj[j]));
      FanMembers(i, j, Intersection(adj[i], adj[j]));
      forall s, t | s in RowTriangles(adj, i, init) && t in Fan(i, j, Intersection(adj[i], adj[j]))
        ensures TriangleLess(s, t)
      {
        var k :| 0 <= k < |init| && init[k] == s.1;
        assert NatLess(js[k], js[|js| - 1]);
      }
      AscendingAppend(RowTriangles(adj, i, init), Fan(i, j, Intersection(adj[i], adj[j])), TriangleLess);
    }
  }

  lemma {:induction false} TrianglesBeforeMembers(adj: seq<seq<nat>>, m: nat)
    requires m <= |adj| && InRange(adj)
    ensures forall t :: t in TrianglesBefore(adj, m) <==> TableTriangle(adj, m, t)
  {
    if m > 0 {
      var i := m - 1;
      var prev, row := TrianglesBefore(adj, i), RowTriangles(adj, i, adj[i]);
      assert TrianglesBefore(adj, m) == prev + row;
      TrianglesBeforeMembers(adj, i);
      RowTrianglesMembers(adj, i, adj[i]);
      forall t: Triangle
        ensures t in prev + row <==> TableTriangle(adj, m, t)
      {
        assert TableTriangle(adj, m, t) <==> TableTriangle(adj, i, t) || RowTriangle(adj, i, adj[i], t);
      }
    }
  }

  lemma {:induction false} TrianglesBeforeAscending(adj: seq<seq<nat>>, m: nat)
    requires m <= |adj| && HigherNeighbours(adj)
    ensures Ascending(TrianglesBefore(adj, m), TriangleLess)
  {
    if m > 0 {
      var i := m - 1;
      HigherNeighboursRow(adj, i);
      TrianglesBeforeAscending(adj, i);
      assert Increasing(adj[i]);
      RowTrianglesAscending(adj, i, adj[i]);
      TrianglesBeforeStepAscending(adj, i);
    }
  }

  /** Appending row i keeps the triangles ascending. */
  lemma TrianglesBeforeStepAscending(adj: seq<seq<nat>>, i: nat)
    requires i < |adj| && InRange(adj)
    requires Ascending(TrianglesBefore(adj, i), TriangleLess)
    requires Ascending(RowTriangles(adj, i, adj[i]), TriangleLess)
    ensures Ascending(TrianglesBefore(adj, i + 1), TriangleLess)
  {
    var prev, row := TrianglesBefore(adj, i), RowTriangles(adj, i, adj[i]);
    assert TrianglesBefore(adj, i + 1) == prev + row;
    RowFollowsEarlierRows(adj, i);
    AscendingAppend(prev, row, TriangleLess);
  }

  /** Every triangle of row i comes after every triangle of the rows before it. */
  lemma RowFollowsEarlierRows(adj: seq<seq<nat>>, i: nat)
    requires i < |adj| && InRange(adj)
    ensures forall s, t :: s in TrianglesBefore(adj, i) && t in RowTriangles(adj, i, adj[i]) ==> TriangleLess(s, t)
  {
    TrianglesBeforeMembers(adj, i);
    RowTrianglesMembers(adj, i, adj[i]);
    forall s, t | s in TrianglesBefore(adj, i) && t in RowTriangles(adj, i, adj[i])
      ensures TriangleLess(s, t)
    {
      assert TableTriangle(adj, i, s) && RowTriangle(adj, i, adj[i], t);
    }
  }

  /**
   * The clique condition: a triple comes out exactly when i < j < k < n and
   * the three disks pairwise meet; the triangles are in lexicographic order,
   * so none comes out twice.
   */
  lemma TrianglesSpec(points: seq<Point>, r: real)
    ensures forall t :: t in Triangles(points, r) <==> IsTriangle(points, r, t)
    ensures Ascending(Triangles(points, r), TriangleLess)
    ensures NoDuplicates(Triangles(points, r))
  {
    var adj := AdjacencyTable(points, r);
    AdjacencyTableShape(points, r);
    TrianglesBeforeMembers(adj, |points|);
    TrianglesBeforeAscending(adj, |points|);
    forall i | 0 <= i < |points| {
      AdjacencySetSpec(points, r, i);
    }
    AscendingNoDuplicates(Triangles(points, r), TriangleLess);
  }

  /** i < j < k and the three sides of [i, j, k] are among `lines`. */
  predicate SidesAreLines(lines: seq<Line>, t: Triangle)
  {
    t.0 < t.1 < t.2 && (t.0, t.1) in lines && (t.0, t.2) in lines && (t.1, t.2) in lines
  }

  /** Each triangle's three sides are among the lines, and conversely. */
  lemma CliqueCondition(points: seq<Point>, r: real)
    ensures forall t :: t in Triangles(points, r) <==> SidesAreLines(Lines(points, r), t)
  {
    LinesSpec(points, r);
    TrianglesSpec(points, r);
  }

  // ---------------------------------------------------------------------------
  // The imperative kernel

  /**
   * `vietorisrips(points, ballRadius)`. The first pass tests every pair
   * i < j once, adding j to the set of i and pushing [i, j] onto `lines`
   * when the disks meet; the second pass pushes [i, j, k] for each j in the
   * set of i and each k in the intersection of the sets of i and j.
   */
  method VietorisRips(points: seq<Point>, ballRadius: real)
    returns (lines: seq<Line>, triangles: seq<Triangle>)
    ensures lines == Lines(points, ballRadius)
    ensures triangles == Triangles(points, ballRadius)
    ensures forall e :: e in lines <==> IsEdge(points, ballRadius, e)
    ensures Ascending(lines, LineLess)
    ensures forall t :: t in triangles <==> IsTriangle(points, ballRadius, t)
    ensures Ascending(triangles, TriangleLess)
  {
    var intersectionsWith;
    intersectionsWith, lines := IndexNeighbours(points, ballRadius);
    AdjacencyTableShape(points, ballRadius);
    triangles := CollectTriangles(intersectionsWith);
    LinesSpec(points, ballRadius);
    TrianglesSpec(points, ballRadius);
  }

  /**
   * The first pass of `vietorisrips`: one test per pair i < j, filling the
   * set of each i with its higher-indexed neighbours and pushing each
   * intersecting pair onto `lines`.
   */
  method IndexNeighbours(points: seq<Point>, ballRadius: real)
    returns (intersectionsWith: seq<seq<nat>>, lines: seq<Line>)
    ensures intersectionsWith == AdjacencyTable(points, ballRadius)
    ensures lines == Lines(points, ballRadius)
    ensures |intersectionsWith| == |points|
    ensures forall i: nat, j: nat :: i < |points| ==>
      (j in intersectionsWith[i] <==> IsEdge(points, ballRadius, (i, j)))
  {
    var n := |points|;
    intersectionsWith := [];
    lines := [];
    for i := 0 to n
      invariant |intersectionsWith| == i
      invariant forall p :: 0 <= p < i ==> intersectionsWith[p] == AdjacencySet(points, ballRadius, p)
      invariant lines == LinesBefore(points, ballRadius, i)
    {
      var intersections;
      intersections, lines := TestHigherPoints(points, ballRadius, i, lines);
      intersectionsWith := intersectionsWith + [intersections];
    }
    forall i | 0 <= i < n
      ensures forall j: nat :: j in intersectionsWith[i] <==> IsEdge(points, ballRadius, (i, j))
    {
      AdjacencySetSpec(points, ballRadius, i);
    }
  }

  /**
   * The inner loop of the first pass for point i: tests every j > i, adding
   * j to the set of i and pushing [i, j] when the disks meet.
   */
  method TestHigherPoints(points: seq<Point>, ballRadius: real, i: nat, lines: seq<Line>)
    returns (intersections: seq<nat>, pushed: seq<Line>)
    requires i < |points|
    ensures intersections == AdjacencySet(points, ballRadius, i)
    ensures pushed == lines + Row(i, intersections)
  {
    intersections := [];
    pushed := lines;
    for j := i + 1 to |points|
      invariant intersections == Neighbours(points, ballRadius, i, j)
      invariant pushed == lines + Row(i, intersections)
    {
      TestStep(points, ballRadius, i, j, lines, intersections, pushed);
      if DoCircleIntersects(points[i].x, points[i].y, ballRadius, points[j].x, points[j].y, ballRadius) {
        intersections := Add(intersections, j);
        pushed := pushed + [(i, j)];
      }
    }
  }

  /** One step of the inner loop: j joins the set of i exactly when their disks meet. */
  lemma NeighboursStep(points: seq<Point>, r: real, i: nat, j: nat)
    requires i < j < |points|
    ensures j !in Neighbours(points, r, i, j)
    ensures Neighbours(points, r, i, j + 1)
         == if Meets(points, r, i, j) then Add(Neighbours(points, r, i, j), j) else Neighbours(points, r, i, j)
  {
    NeighboursMembers(points, r, i, j);
  }

  /** The inner loop's invariant is kept by the test of j, whichever way it goes. */
  lemma TestStep(points: seq<Point>, r: real, i: nat, j: nat, lines: seq<Line>, intersections: seq<nat>, pushed: seq<Line>)
    requires i < j < |points|
    requires intersections == Neighbours(points, r, i, j)
    requires pushed == lines + Row(i, intersections)
    ensures Meets(points, r, i, j) ==>
      && Add(intersections, j) == Neighbours(points, r, i, j + 1)
      && pushed + [(i, j)] == lines + Row(i, Add(intersections, j))
    ensures !Meets(points, r, i, j) ==> intersections == Neighbours(points, r, i, j + 1)
  {
    NeighboursStep(points, r, i, j);
    if Meets(points, r, i, j) {
      assert Add(intersections, j) == intersections + [j];
      RowSnoc(i, intersections, j);
    }
  }

  lemma RowSnoc(i: nat, js: seq<nat>, j: nat)
    ensures Row(i, js + [j]) == Row(i, js) + [(i, j)]
  {
    assert (js + [j])[..|js|] == js;
  }

  /**
   * The second pass of `vietorisrips`: for each i, each j in the set of i and
   * each k that the sets of i and j share, push [i, j, k].
   */
  method CollectTriangles(intersectionsWith: seq<seq<nat>>) returns (triangles: seq<Triangle>)
    requires HigherNeighbours(intersectionsWith)
    ensures triangles == TrianglesBefore(intersectionsWith, |intersectionsWith|)
  {
    triangles := [];
    for i := 0 to |intersectionsWith|
      invariant triangles == TrianglesBefore(intersectionsWith, i)
    {
      HigherNeighboursRow(intersectionsWith, i);
      var row := CollectRowTriangles(intersectionsWith, i);
      triangles := triangles + row;
    }
  }

  /**
   * One step of the outer `forEach` of the second pass: the triangles whose
   * smallest vertex is i, in the order they are pushed.
   */
  method CollectRowTriangles(intersectionsWith: seq<seq<nat>>, i: nat) returns (triangles: seq<Triangle>)
    requires i < |intersectionsWith|
    requires NoDuplicates(intersectionsWith[i])
    requires forall k :: 0 <= k < |intersectionsWith[i]| ==> intersectionsWith[i][k] < |intersectionsWith|
    ensures triangles == RowTriangles(intersectionsWith, i, intersectionsWith[i])
  {
    var intersections := intersectionsWith[i];
    triangles := [];
    for t := 0 to |intersections|
      invariant triangles == RowTriangles(intersectionsWith, i, intersections[..t])
    {
      var j := intersections[t];
      var common := Intersect(intersections, intersectionsWith[j]);
      RowTrianglesSnoc(intersectionsWith, i, intersections, t);
      triangles := PushFan(triangles, i, j, common);
    }
    assert intersections[..|intersections|] == intersections;
  }

  /** The innermost forEach: pushes [i, j, k] for every k of `common`, in order. */
  method PushFan(triangles: seq<Triangle>, i: nat, j: nat, common: seq<nat>) returns (pushed: seq<Triangle>)
    ensures pushed == triangles + Fan(i, j, common)
  {
    pushed := triangles;
    for u := 0 to |common|
      invariant pushed == triangles + Fan(i, j, common[..u])
    {
      FanSnoc(i, j, common, u);
      pushed := pushed + [(i, j, common[u])];
    }
    assert common[..|common|] == common;
  }

  lemma HigherNeighboursRow(adj: seq<seq<nat>>, i: nat)
    requires HigherNeighbours(adj) && i < |adj|
    ensures NoDuplicates(adj[i])
    ensures forall k :: 0 <= k < |adj[i]| ==> i < adj[i][k] < |adj|
  {
    IncreasingNoDuplicates(adj[i]);
  }

  lemma FanSnoc(i: nat, j: nat, ks: seq<nat>, u: nat)
    requires u < |ks|
    ensures Fan(i, j, ks[..u + 1]) == Fan(i, j, ks[..u]) + [(i, j, ks[u])]
  {
    assert ks[..u + 1][..u] == ks[..u];
  }

  lemma RowTrianglesSnoc(adj: seq<seq<nat>>, i: nat, js: seq<nat>, t: nat)
    requires i < |adj| && t < |js|
    requires forall k :: 0 <= k < |js| ==> js[k] < |adj|
    ensures RowTriangles(adj, i, js[..t + 1])
         == RowTriangles(adj, i, js[..t]) + Fan(i, js[t], Intersection(adj[i], adj[js[t]]))
  {
    assert js[..t + 1][..t] == js[..t];
  }

  lemma IncreasingNoDuplicates(s: seq<nat>)
    requires Increasing(s)
    ensures NoDuplicates(s)
  {
    AscendingNoDuplicates(s, NatLess);
  }
}
