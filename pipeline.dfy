/** The top level of the script (lines 133-147): load both datasets, compute
    the nearest distances, then the mean, median, maximum and farthest address. */
module Pipeline {
  import opened Wrappers
  import opened Dict
  import opened Geometry
  import opened Records
  import opened Distances
  import opened Statistics

  /** What the script prints on a normal run. */
  datatype Report = Report(
    addressCount: nat,     // len(nacteni_adresy)
    containerCount: nat,   // len(nacteni_kontejnery)
    mean: real,            // prumer
    median: real,          // median
    maximum: real,         // maximum
    farthest: string)      // nejvzdalenejsi

  /** The whole run: `Abort` exactly when a dataset yields no entry or an
      address has no container within 10 km; otherwise the statistics of the
      nearest-distance table. */
  method Run(containerData: seq<Feature>, addressData: seq<Feature>, transform: Transform, sqrt: real -> real)
    returns (r: Outcome<Report>)
    ensures var containers := Loaded(Containers, transform, containerData);
      var addresses := Loaded(Addresses, transform, addressData);
      r.Done? <==> containers != [] && addresses != [] && AllWithinLimit(sqrt, containers, addresses)
    ensures r.Done? ==>
      var containers := Loaded(Containers, transform, containerData);
      var addresses := Loaded(Addresses, transform, addressData);
      var table := Table(sqrt, containers, addresses);
      && |table| > 0
      && r.value.addressCount == |addresses|
      && r.value.containerCount == |containers|
      && r.value.mean == Mean(Values(table))
      && IsMedianOf(Values(table), r.value.median)
      && (exists k :: LastMaximumAt(table, k, r.value.maximum) && table[k].0 == r.value.farthest)
      && (IsSqrt(sqrt) ==> forall i :: 0 <= i < |table| ==> 0.0 <= table[i].1 <= Limit)
  {
    var containers, invalidContainers := LoadData(containerData, Containers, transform);
    if containers.Abort? {
      return Abort;
    }
    var addresses, invalidAddresses := LoadData(addressData, Addresses, transform);
    if addresses.Abort? {
      return Abort;
    }
    var distances := NearestDistances(sqrt, containers.value, addresses.value);
    if distances.Abort? {
      return Abort;
    }
    var table := distances.value;
    var mean := Sum(Values(table)) / |table| as real;
    var median := Median(table);
    var maximum, farthest := Farthest(table);
    if IsSqrt(sqrt) {
      TableBounds(sqrt, containers.value, addresses.value);
    }
    return Done(Report(|addresses.value|, |containers.value|, mean, median, maximum, farthest));
  }
}
