/**
 * The ant of the graph ant-colony solver (ad-4 Ant.java): the path walked so far,
 * a visited flag per vertex, the current vertex and the accumulated path length.
 */
module VertexAnt {

  class Ant {
    var path: seq<int>
    var pathLength: real
    var currentVertex: int
    const visited: array<bool>

    /** The ant stands on the last vertex of its path, and a vertex is visited exactly when it is on the path. */
    ghost predicate Valid()
      reads this, visited
    {
      |path| >= 1 &&
      currentVertex == path[|path| - 1] &&
      (forall k :: 0 <= k < |path| ==> 0 <= path[k] < visited.Length) &&
      (forall v :: 0 <= v < visited.Length ==> (visited[v] <==> v in path))
    }

    constructor (startVertex: int, totalVertices: int)
      requires 0 <= startVertex < totalVertices
      ensures Valid() && fresh(visited)
      ensures path == [startVertex] && currentVertex == startVertex && pathLength == 0.0
      ensures visited.Length == totalVertices
      ensures forall v :: 0 <= v < totalVertices ==> (visited[v] <==> v == startVertex)
    {
      var flags := new bool[totalVertices](_ => false);
      flags[startVertex] := true;
      visited := flags;
      pathLength := 0.0;
      currentVertex := startVertex;
      path := [startVertex];
    }

    /** Walk to `vertex` along an edge of length `distance`. */
    method VisitVertex(vertex: int, distance: real)
      requires Valid()
      requires 0 <= vertex < visited.Length
      modifies this, visited
      ensures Valid()
      ensures path == old(path) + [vertex]
      ensures currentVertex == vertex
      ensures pathLength == old(pathLength) + distance
      ensures visited[vertex]
      ensures forall v :: 0 <= v < visited.Length && v != vertex ==> visited[v] == old(visited[v])
    {
      path := path + [vertex];
      visited[vertex] := true;
      pathLength := pathLength + distance;
      currentVertex := vertex;
    }

    method IsNotVisited(vertex: int) returns (r: bool)
      requires Valid()
      requires 0 <= vertex < visited.Length
      ensures r <==> vertex !in path
      ensures r == !visited[vertex]
    {
      r := !visited[vertex];
    }

    method GetCurrentVertex() returns (v: int)
      requires Valid()
      ensures v == path[|path| - 1]
    {
      v := currentVertex;
    }

    method GetPath() returns (p: seq<int>)
      requires Valid()
      ensures p == path && |p| >= 1 && p[|p| - 1] == currentVertex
    {
      p := path;
    }

    method GetPathLength() returns (d: real)
      ensures d == pathLength
    {
      d := pathLength;
    }
  }
}
