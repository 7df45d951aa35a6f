/** The nearest-container scan `generovani_min_vzdalenosti`. */
module Distances {
  import opened Wrappers
  import opened Dict
  import opened Geometry

  /** The 10 km sanity bound on a nearest-container distance, in metres. */
  const Limit: real := 10000.0

  /** The smallest distance from `a` to a container of the dictionary, or the
      starting value -1 of the running minimum when there is no container. */
  function Nearest(sqrt: real -> real, a: Point, containers: Dict<Point>): (m: real)
    ensures containers == [] ==> m == -1.0
    ensures forall k :: 0 <= k < |containers| ==> m <= Pythagoras(sqrt, a, containers[k].1)
    ensures containers != [] ==> exists k :: 0 <= k < |containers| && m == Pythagoras(sqrt, a, containers[k].1)
    decreases |containers|
  {
    if containers == [] then -1.0
    else
      var d := Pythagoras(sqrt, a, containers[0].1);
      if |containers| == 1 then d
      else
        var rest := Nearest(sqrt, a, containers[1..]);
        assert forall k :: 1 <= k < |containers| ==> containers[k] == containers[1..][k - 1];
        if d <= rest then d else rest
  }

  /** The dictionary `vzdalenosti` a normal return yields: every address, in
      order, with its nearest-container distance. */
  function Table(sqrt: real -> real, containers: Dict<Point>, addresses: Dict<Point>): (t: Dict<real>)
    ensures |t| == |addresses|
    ensures forall i :: 0 <= i < |t| ==> t[i] == (addresses[i].0, Nearest(sqrt, addresses[i].1, containers))
  {
    seq(|addresses|, i requires 0 <= i < |addresses| => (addresses[i].0, Nearest(sqrt, addresses[i].1, containers)))
  }

  /** Every address has a container within the limit. */
  ghost predicate AllWithinLimit(sqrt: real -> real, containers: Dict<Point>, addresses: Dict<Point>)
  {
    forall i :: 0 <= i < |addresses| ==> Nearest(sqrt, addresses[i].1, containers) <= Limit
  }

  /** The inner loop of `generovani_min_vzdalenosti`: the running minimum over
      every container, started at -1 and replaced by the first distance. */
  method ScanContainers(sqrt: real -> real, at: Point, containers: Dict<Point>) returns (min: real)
    ensures containers == [] ==> min == -1.0
    ensures forall k :: 0 <= k < |containers| ==> min <= Pythagoras(sqrt, at, containers[k].1)
    ensures containers != [] ==> exists k :: 0 <= k < |containers| && min == Pythagoras(sqrt, at, containers[k].1)
  {
    min := -1.0;
    var first := true;
    for j := 0 to |containers|
      invariant first <==> j == 0
      invariant first ==> min == -1.0
      invariant forall k :: 0 <= k < j ==> min <= Pythagoras(sqrt, at, containers[k].1)
      invariant !first ==> exists k :: 0 <= k < j && min == Pythagoras(sqrt, at, containers[k].1)
    {
      var distance := Pythagoras(sqrt, at, containers[j].1);
      if first || distance < min {
        min := distance;
        first := false;
      }
    }
  }

  /** The running minimum is the nearest distance: the two are each at most
      the other. */
  lemma MinimumIsNearest(sqrt: real -> real, at: Point, containers: Dict<Point>, min: real)
    requires containers == [] ==> min == -1.0
    requires forall k :: 0 <= k < |containers| ==> min <= Pythagoras(sqrt, at, containers[k].1)
    requires containers != [] ==> exists k :: 0 <= k < |containers| && min == Pythagoras(sqrt, at, containers[k].1)
    ensures min == Nearest(sqrt, at, containers)
  {
    if containers != [] {
      var k :| 0 <= k < |containers| && min == Pythagoras(sqrt, at, containers[k].1);
    }
  }

  /** `generovani_min_vzdalenosti`: the table of nearest distances, or `Abort`
      as soon as one address has no container within 10 km. */
  method NearestDistances(sqrt: real -> real, containers: Dict<Point>, addresses: Dict<Point>)
    returns (r: Outcome<Dict<real>>)
    requires DistinctKeys(addresses)
    ensures r.Abort? <==> !AllWithinLimit(sqrt, containers, addresses)
    ensures r.Done? ==> r.value == Table(sqrt, containers, addresses)
    ensures r.Done? ==> forall i :: 0 <= i < |r.value| ==> r.value[i].1 <= Limit
  {
    var distances: Dict<real> := [];
    for i := 0 to |addresses|
      invariant |distances| == i
      invariant forall j :: 0 <= j < i ==>
        distances[j] == (addresses[j].0, Nearest(sqrt, addresses[j].1, containers))
      invariant forall j :: 0 <= j < i ==> Nearest(sqrt, addresses[j].1, containers) <= Limit
    {
      var (street, at) := addresses[i];
      var min := ScanContainers(sqrt, at, containers);
      MinimumIsNearest(sqrt, at, containers, min);
      if min > Limit {
        return Abort;
      }
      distances := Put(distances, street, min);
    }
    return Done(distances);
  }

  /** Because a normal run has already aborted on an empty container
      dictionary, the sentinel -1 never survives: every distance in the table
      lies between 0 and 10 km. */
  lemma TableBounds(sqrt: real -> real, containers: Dict<Point>, addresses: Dict<Point>)
    requires IsSqrt(sqrt) && containers != []
    requires AllWithinLimit(sqrt, containers, addresses)
    ensures forall i :: 0 <= i < |addresses| ==>
      0.0 <= Table(sqrt, containers, addresses)[i].1 <= Limit
  {
    forall i | 0 <= i < |addresses|
      ensures 0.0 <= Nearest(sqrt, addresses[i].1, containers)
    {
      var a := addresses[i].1;
      var k :| 0 <= k < |containers| && Nearest(sqrt, a, containers) == Pythagoras(sqrt, a, containers[k].1);
      PythagorasIsDistance(sqrt, a, containers[k].1);
    }
  }

  /** The nearest container is the one nearest by squared distance, so the
      square root does not change which container attains the minimum. */
  lemma NearestBySquares(sqrt: real -> real, a: Point, containers: Dict<Point>, k: nat)
    requires IsSqrt(sqrt) && k < |containers|
    ensures Nearest(sqrt, a, containers) == Pythagoras(sqrt, a, containers[k].1) <==>
      forall j :: 0 <= j < |containers| ==> SquaredDistance(a, containers[k].1) <= SquaredDistance(a, containers[j].1)
  {
    var m := Nearest(sqrt, a, containers);
    var dk := Pythagoras(sqrt, a, containers[k].1);
    forall j | 0 <= j < |containers|
      ensures dk <= Pythagoras(sqrt, a, containers[j].1) <==>
        SquaredDistance(a, containers[k].1) <= SquaredDistance(a, containers[j].1)
    {
      CompareBySquares(sqrt, a, containers[j].1, containers[k].1);
    }
    if m == dk {
    } else {
      var l :| 0 <= l < |containers| && m == Pythagoras(sqrt, a, containers[l].1);
      assert m < dk;
    }
  }
}
