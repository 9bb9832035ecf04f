/**
 * The ant of the travelling-salesman ant-colony solver (ad-5 Ant.java): the tour
 * built so far and a visited flag per city.
 */
module CityAnt {

  class Ant {
    var tour: seq<int>
    const visited: array<bool>

    /** The tour is non-empty, names only cities, and a city is visited exactly when the tour holds it. */
    ghost predicate Valid()
      reads this, visited
    {
      |tour| >= 1 &&
      (forall k :: 0 <= k < |tour| ==> 0 <= tour[k] < visited.Length) &&
      (forall c :: 0 <= c < visited.Length ==> (visited[c] <==> c in tour))
    }

    constructor (numCities: int, startCity: int)
      requires 0 <= startCity < numCities
      ensures Valid() && fresh(visited)
      ensures tour == [startCity] && visited.Length == numCities
      ensures forall c :: 0 <= c < numCities ==> (visited[c] <==> c == startCity)
    {
      var flags := new bool[numCities](_ => false);
      flags[startCity] := true;
      visited := flags;
      tour := [startCity];
    }

    /** Append `city` to the tour; an already visited city is appended again. */
    method VisitCity(city: int)
      requires Valid()
      requires 0 <= city < visited.Length
      modifies this, visited
      ensures Valid()
      ensures tour == old(tour) + [city]
      ensures visited[city]
      ensures forall c :: 0 <= c < visited.Length && c != city ==> visited[c] == old(visited[c])
    {
      tour := tour + [city];
      visited[city] := true;
    }

    method IsVisited(city: int) returns (r: bool)
      requires Valid()
      requires 0 <= city < visited.Length
      ensures r <==> city in tour
      ensures r == visited[city]
    {
      r := visited[city];
    }

    method CurrentCity() returns (c: int)
      requires Valid()
      ensures c == tour[|tour| - 1]
      ensures 0 <= c < visited.Length && visited[c]
    {
      c := tour[|tour| - 1];
    }
  }
}
