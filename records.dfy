/** Reading raw GeoJSON features into a label -> point dictionary
    (`cteni_kontejneru`, `cteni_adresy`, `nacteni_dat`). */
module Records {
  import opened Wrappers
  import opened Dict
  import opened Geometry

  /** The value of the PRISTUP property that marks a container open to everyone. */
  const Open: string := "volně"

  /** A raw feature after JSON parsing. Each field is one key path the code
      reads; `None` means the key is absent, so reading it raises `KeyError`.
      `coordinates` holds `geometry.coordinates[0]` as `x` and `[1]` as `y`. */
  datatype Feature = Feature(
    stationName: Option<string>,   // properties.STATIONNAME
    access: Option<string>,        // properties.PRISTUP
    street: Option<string>,        // properties["addr:street"]
    houseNumber: Option<string>,   // properties["addr:housenumber"]
    coordinates: Option<Point>)    // geometry.coordinates

  /** The two datasets; `nacteni_dat` picks one with its `jeToKontejner` flag. */
  datatype Kind = Containers | Addresses

  /** What reading one feature gives: a `KeyError`, the pair `(None, None)`
      of a container that is not open, or a key with its point. */
  datatype Reading = MissingKey | Ineligible | Entry(key: string, at: Point)

  /** The WGS-84 -> S-JTSK transformer, called as `transform(latitude, longitude)`. */
  type Transform = (real, real) -> Point

  /** The feature lacks a key that reading it as `kind` looks up. */
  predicate MissingKeys(kind: Kind, f: Feature)
  {
    match kind
    case Containers => f.stationName.None? || f.coordinates.None? || f.access.None?
    case Addresses => f.street.None? || f.houseNumber.None? || f.coordinates.None?
  }

  /** `cteni_kontejneru`. */
  function ReadContainer(f: Feature): (r: Reading)
    ensures r == MissingKey <==> MissingKeys(Containers, f)
    ensures r.Entry? <==> !MissingKeys(Containers, f) && f.access.value == Open
    ensures r.Entry? ==> f.stationName == Some(r.key) && f.coordinates == Some(r.at)
  {
    if f.stationName.None? || f.coordinates.None? || f.access.None? then MissingKey
    else if f.access.value == Open then Entry(f.stationName.value, f.coordinates.value)
    else Ineligible
  }

  /** `cteni_adresy`. */
  function ReadAddress(transform: Transform, f: Feature): (r: Reading)
    ensures r == MissingKey <==> MissingKeys(Addresses, f)
    ensures r != Ineligible
    ensures r.Entry? ==> r.key == f.street.value + " " + f.houseNumber.value
    ensures r.Entry? ==> r.at == transform(f.coordinates.value.y, f.coordinates.value.x)
  {
    if f.street.None? || f.houseNumber.None? || f.coordinates.None? then MissingKey
    else
      var lonLat := f.coordinates.value;
      Entry(f.street.value + " " + f.houseNumber.value, transform(lonLat.y, lonLat.x))
  }

  function Read(kind: Kind, transform: Transform, f: Feature): Reading
  {
    match kind
    case Containers => ReadContainer(f)
    case Addresses => ReadAddress(transform, f)
  }

  /** Reading `f` gives an entry under key `k`. */
  predicate EntryFor(kind: Kind, transform: Transform, f: Feature, k: string)
  {
    var r := Read(kind, transform, f); r.Entry? && r.key == k
  }

  /** The dictionary `nacteni` after the loop has processed `data`. */
  function Loaded(kind: Kind, transform: Transform, data: seq<Feature>): (d: Dict<Point>)
    ensures DistinctKeys(d)
    decreases |data|
  {
    if data == [] then []
    else
      var d := Loaded(kind, transform, data[..|data| - 1]);
      match Read(kind, transform, data[|data| - 1])
      case Entry(k, p) => Put(d, k, p)
      case _ => d
  }

  /** The number of features in `data` that lack a key `kind` needs. */
  function Invalid(kind: Kind, data: seq<Feature>): (n: nat)
    ensures n <= |data|
    decreases |data|
  {
    if data == [] then 0
    else Invalid(kind, data[..|data| - 1]) + (if MissingKeys(kind, data[|data| - 1]) then 1 else 0)
  }

  /** `nacteni_dat`: the dictionary of the dataset, or `Abort` when it is empty;
      `invalid` is the count `pocet_neplatnych` that the warning reports. */
  method LoadData(data: seq<Feature>, kind: Kind, transform: Transform)
    returns (loaded: Outcome<Dict<Point>>, invalid: nat)
    ensures invalid == Invalid(kind, data)
    ensures loaded.Abort? <==> Loaded(kind, transform, data) == []
    ensures loaded.Done? ==> loaded.value == Loaded(kind, transform, data)
  {
    var entries: Dict<Point> := [];
    invalid := 0;
    for i := 0 to |data|
      invariant entries == Loaded(kind, transform, data[..i])
      invariant invalid == Invalid(kind, data[..i])
    {
      assert data[..i + 1][..i] == data[..i];
      var reading := if kind == Containers then ReadContainer(data[i]) else ReadAddress(transform, data[i]);
      match reading
      case MissingKey =>
        invalid := invalid + 1;
      case Ineligible =>
      case Entry(k, p) =>
        entries := Put(entries, k, p);
    }
    assert data[..|data|] == data;
    if |entries| == 0 {
      loaded := Abort;
    } else {
      loaded := Done(entries);
    }
  }

  /** Processing one more feature leaves every lookup unchanged except under
      the key it reads as an entry, which it then holds. */
  lemma LoadedStep(kind: Kind, transform: Transform, data: seq<Feature>, k: string)
    requires data != []
    ensures EntryFor(kind, transform, data[|data| - 1], k) ==>
      Get(Loaded(kind, transform, data), k) == Some(Read(kind, transform, data[|data| - 1]).at)
    ensures !EntryFor(kind, transform, data[|data| - 1], k) ==>
      Get(Loaded(kind, transform, data), k) == Get(Loaded(kind, transform, data[..|data| - 1]), k)
  {
    var before := Loaded(kind, transform, data[..|data| - 1]);
    var r := Read(kind, transform, data[|data| - 1]);
    if r.Entry? {
      assert Loaded(kind, transform, data) == Put(before, r.key, r.at);
      if r.key != k {
        PutOther(before, r.key, r.at, k);
      }
    } else {
      assert Loaded(kind, transform, data) == before;
    }
  }

  /** Some feature of `data` reads as an entry under `k`. */
  ghost predicate HasEntryFor(kind: Kind, transform: Transform, data: seq<Feature>, k: string)
  {
    exists i :: 0 <= i < |data| && EntryFor(kind, transform, data[i], k)
  }

  lemma HasEntryForStep(kind: Kind, transform: Transform, data: seq<Feature>, k: string)
    requires data != []
    ensures HasEntryFor(kind, transform, data, k) <==>
      HasEntryFor(kind, transform, data[..|data| - 1], k) || EntryFor(kind, transform, data[|data| - 1], k)
  {
    var pre := data[..|data| - 1];
    if i :| 0 <= i < |data| && EntryFor(kind, transform, data[i], k) {
      if i < |pre| {
        assert pre[i] == data[i];
      }
    }
    if i :| 0 <= i < |pre| && EntryFor(kind, transform, pre[i], k) {
      assert pre[i] == data[i];
    }
  }

  /** A key is in the dictionary exactly when some feature reads as an entry
      under it. */
  lemma {:induction false} LoadedKeys(kind: Kind, transform: Transform, data: seq<Feature>, k: string)
    ensures HasKey(Loaded(kind, transform, data), k) <==> HasEntryFor(kind, transform, data, k)
    decreases |data|
  {
    if data != [] {
      LoadedKeys(kind, transform, data[..|data| - 1], k);
      LoadedStep(kind, transform, data, k);
      HasEntryForStep(kind, transform, data, k);
    }
  }

  /** `data[i]` is the last feature that reads as an entry under `k`. */
  ghost predicate LastEntryAt(kind: Kind, transform: Transform, data: seq<Feature>, i: int, k: string)
  {
    && 0 <= i < |data|
    && EntryFor(kind, transform, data[i], k)
    && forall j :: i < j < |data| ==> !EntryFor(kind, transform, data[j], k)
  }

  lemma LastEntryAtPrefix(kind: Kind, transform: Transform, data: seq<Feature>, i: int, k: string)
    requires LastEntryAt(kind, transform, data, i, k) && i < |data| - 1
    ensures LastEntryAt(kind, transform, data[..|data| - 1], i, k)
  {
    var pre := data[..|data| - 1];
    assert forall j :: 0 <= j < |pre| ==> pre[j] == data[j];
  }

  /** The value under a key is the point of the last feature that reads as an
      entry under it. */
  lemma {:induction false} LastWriteValue(kind: Kind, transform: Transform, data: seq<Feature>, k: string, i: int)
    requires LastEntryAt(kind, transform, data, i, k)
    ensures Get(Loaded(kind, transform, data), k) == Some(Read(kind, transform, data[i]).at)
    decreases |data|
  {
    LoadedStep(kind, transform, data, k);
    if i < |data| - 1 {
      LastEntryAtPrefix(kind, transform, data, i, k);
      LastWriteValue(kind, transform, data[..|data| - 1], k, i);
    }
  }

  /** Last write wins, in one statement: presence by some entry, value by the
      last one. */
  lemma LastWriteWins(kind: Kind, transform: Transform, data: seq<Feature>, k: string)
    ensures HasKey(Loaded(kind, transform, data), k) <==> HasEntryFor(kind, transform, data, k)
    ensures forall i :: LastEntryAt(kind, transform, data, i, k) ==>
      Get(Loaded(kind, transform, data), k) == Some(Read(kind, transform, data[i]).at)
  {
    LoadedKeys(kind, transform, data, k);
    forall i | LastEntryAt(kind, transform, data, i, k)
      ensures Get(Loaded(kind, transform, data), k) == Some(Read(kind, transform, data[i]).at)
    {
      LastWriteValue(kind, transform, data, k, i);
    }
  }

  /** Every item of the dictionary is the key and point of some feature that
      reads as an entry: a feature lacking a key contributes nothing. */
  lemma {:induction false} LoadedFromEntries(kind: Kind, transform: Transform, data: seq<Feature>)
    ensures forall e :: e in Loaded(kind, transform, data) ==>
      exists i :: 0 <= i < |data| && Read(kind, transform, data[i]) == Entry(e.0, e.1)
    decreases |data|
  {
    if data != [] {
      var n := |data|;
      var pre := data[..n - 1];
      LoadedFromEntries(kind, transform, pre);
      var before := Loaded(kind, transform, pre);
      var after := Loaded(kind, transform, data);
      var r := Read(kind, transform, data[n - 1]);
      forall e | e in after
        ensures exists i :: 0 <= i < n && Read(kind, transform, data[i]) == Entry(e.0, e.1)
      {
        if r.Entry? && e == (r.key, r.at) {
          assert Read(kind, transform, data[n - 1]) == Entry(e.0, e.1);
        } else {
          assert e in before by {
            if r.Entry? {
              assert after == Put(before, r.key, r.at);
              var m :| 0 <= m < |after| && after[m] == e;
              assert before[m] == e;
            } else {
              assert after == before;
            }
          }
          var i :| 0 <= i < n - 1 && Read(kind, transform, pre[i]) == Entry(e.0, e.1);
          assert pre[i] == data[i];
        }
      }
    }
  }

  /** Only open containers reach the container dictionary. */
  lemma OnlyOpenContainers(transform: Transform, data: seq<Feature>)
    ensures forall e :: e in Loaded(Containers, transform, data) ==>
      exists i :: 0 <= i < |data| && data[i].access == Some(Open) &&
        data[i].stationName == Some(e.0) && data[i].coordinates == Some(e.1)
  {
    LoadedFromEntries(Containers, transform, data);
  }

  /** A container that is not open changes neither the dictionary nor the
      invalid count. */
  lemma IneligibleContainerIgnored(transform: Transform, data: seq<Feature>, f: Feature)
    requires ReadContainer(f) == Ineligible
    ensures Loaded(Containers, transform, data + [f]) == Loaded(Containers, transform, data)
    ensures Invalid(Containers, data + [f]) == Invalid(Containers, data)
  {
    assert (data + [f])[..|data|] == data;
  }

  /** No two features read as entries under the same key. */
  ghost predicate DistinctEntryKeys(kind: Kind, transform: Transform, data: seq<Feature>)
  {
    forall i, j :: 0 <= i < j < |data| && Read(kind, transform, data[i]).Entry? && Read(kind, transform, data[j]).Entry? ==>
      Read(kind, transform, data[i]).key != Read(kind, transform, data[j]).key
  }

  /** No feature reads as an ineligible container. */
  ghost predicate NoIneligible(kind: Kind, transform: Transform, data: seq<Feature>)
  {
    forall i :: 0 <= i < |data| ==> Read(kind, transform, data[i]) != Ineligible
  }

  lemma DistinctEntryKeysPrefix(kind: Kind, transform: Transform, data: seq<Feature>)
    requires data != [] && DistinctEntryKeys(kind, transform, data)
    ensures DistinctEntryKeys(kind, transform, data[..|data| - 1])
    ensures Read(kind, transform, data[|data| - 1]).Entry? ==>
      !HasEntryFor(kind, transform, data[..|data| - 1], Read(kind, transform, data[|data| - 1]).key)
  {
    var pre := data[..|data| - 1];
    assert forall j :: 0 <= j < |pre| ==> pre[j] == data[j];
  }

  lemma LoadedSizeStep(kind: Kind, transform: Transform, data: seq<Feature>)
    requires data != []
    ensures var r := Read(kind, transform, data[|data| - 1]);
      && Invalid(kind, data) == Invalid(kind, data[..|data| - 1]) + (if r == MissingKey then 1 else 0)
      && |Loaded(kind, transform, data)| <= |Loaded(kind, transform, data[..|data| - 1])| + (if r.Entry? then 1 else 0)
      && (r.Entry? && !HasKey(Loaded(kind, transform, data[..|data| - 1]), r.key) ==>
          |Loaded(kind, transform, data)| == |Loaded(kind, transform, data[..|data| - 1])| + 1)
  {
  }

  /** Every feature is either counted invalid or gives at most one item; when
      keys do not repeat and no container is ineligible, it is exactly one. */
  lemma {:induction false} LoadedSize(kind: Kind, transform: Transform, data: seq<Feature>)
    ensures |Loaded(kind, transform, data)| + Invalid(kind, data) <= |data|
    ensures DistinctEntryKeys(kind, transform, data) && NoIneligible(kind, transform, data) ==>
      |Loaded(kind, transform, data)| + Invalid(kind, data) == |data|
    decreases |data|
  {
    if data != [] {
      var pre := data[..|data| - 1];
      LoadedSize(kind, transform, pre);
      LoadedSizeStep(kind, transform, data);
      if DistinctEntryKeys(kind, transform, data) && NoIneligible(kind, transform, data) {
        DistinctEntryKeysPrefix(kind, transform, data);
        assert NoIneligible(kind, transform, pre) by {
          assert forall j :: 0 <= j < |pre| ==> pre[j] == data[j];
        }
        var r := Read(kind, transform, data[|data| - 1]);
        if r.Entry? {
          LoadedKeys(kind, transform, pre, r.key);
        }
      }
    }
  }
}
