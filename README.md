# Nearest sorting-container distances — a Dafny model

This project models the computation in `benes_du_2.py`. The script reads two GeoJSON
feature collections: waste-sorting containers (`kontejnery`) and address points (`adresy`).
For each address it finds the distance to the nearest publicly accessible container.
It then reports the mean, the median, the maximum and the address that attains the
maximum (`nejvzdalenejsi`).

The model follows the script function by function:

- `Records` reads raw features into a label → point dictionary.
  - `ReadContainer` models `cteni_kontejneru` and `ReadAddress` models `cteni_adresy`.
  - `LoadData` models the loop of `nacteni_dat`. It counts the features that raise
    `KeyError`, skips containers whose `PRISTUP` is not `"volně"`, and lets a later
    duplicate label overwrite an earlier one.
  - An empty dictionary ends the run.
- `Distances` models `generovani_min_vzdalenosti`.
  - `ScanContainers` is its inner loop: a running minimum that starts at the sentinel
    `-1` and uses the `prvni` flag.
  - `NearestDistances` is the outer loop. It aborts the run as soon as one address's
    minimum exceeds 10,000 m.
- `Statistics` covers the rest.
  - `Mean` is `sum/len`.
  - `Median` sorts a copy in place (`SortInPlace` stands for `list.sort()`) and indexes
    at `(n-1)//2`.
  - `Farthest` is `max` followed by the loop that keeps overwriting `nejvzdalenejsi`.
- `Pipeline.Run` is the top level of the script (lines 133-147).

Modelling choices:

- A Python `dict` is a sequence of (key, value) pairs in insertion order (`Dict`).
  Assigning to an existing key replaces its value in place and keeps its position.
- `exit()` becomes the result `Abort` (`Wrappers.Outcome`).
- A key missing from a feature is a `None` field of `Records.Feature`; reading it stands
  for the `KeyError` the code catches.
- The WGS-84 → S-JTSK transformer is a function parameter (`Records.Transform`). It is
  called as `transform(latitude, longitude)`, as the code calls it.
- `math.sqrt` is a function parameter. `Geometry.IsSqrt` states what makes it a square
  root, and the lemmas that need square-root facts assume it.
- Coordinates and distances are reals.

Three consequences of the code are worth stating:

- A container whose PRISTUP is not `"volně"` never reaches the dictionary
  (lines 42-44, 64-65): `cteni_kontejneru` returns `(None, None)` and `nacteni_dat`
  skips it, so such a container plays no part in any distance.
- The farthest address is the last one, in dictionary order, whose distance equals the
  maximum (lines 145-147).
- The running minimum's starting value `-1` is never reported on a normal run.
  `nacteni_dat` has already aborted on an empty container dictionary, and
  `Distances.TableBounds` proves that every reported distance is then between 0 and 10,000.

## Model

| member | source | states |
|---|---|---|
| Dict.Put | benes_du_2.py:67 | `d[k] = v`: an existing key keeps its position and only its value changes; a new key is appended; keys stay distinct; afterwards `k` maps to `v` |
| Dict.PutOther | benes_du_2.py:67 | assigning to one key leaves the lookup of every other key unchanged |
| Geometry.SquaredDistance | benes_du_2.py:85 | the sum of squared coordinate differences that `pythagoras` passes to `sqrt` is never negative |
| Geometry.PythagorasIsDistance | benes_du_2.py:84-85 | given a true square root, `pythagoras` is non-negative and symmetric, is zero exactly for equal points, and its square is the squared distance |
| Geometry.CompareBySquares | benes_du_2.py:84-85 | one distance is smaller than another exactly when its squared distance is smaller, so the minimiser is the same for distances and squared distances |
| Geometry.ThresholdBySquares | benes_du_2.py:102 | a distance exceeds 10,000 exactly when its square exceeds 100,000,000 |
| Records.ReadContainer | benes_du_2.py:37-44 | `KeyError` exactly when STATIONNAME, coordinates or PRISTUP is missing; a (label, point) entry exactly when all three are present and PRISTUP is "volně", and the entry is the station name with the raw coordinates; otherwise the ineligible `(None, None)` |
| Records.ReadAddress | benes_du_2.py:46-51 | `KeyError` exactly when the street, house number or coordinates are missing; otherwise the label is exactly `street + " " + housenumber` and the point is `transform(coordinates[1], coordinates[0])`; never ineligible |
| Records.Loaded | benes_du_2.py:57-67 | the dictionary the loop builds has no repeated key |
| Records.Invalid | benes_du_2.py:57-69 | the invalid count never exceeds the number of features |
| Records.LoadData | benes_du_2.py:53-82 | the returned count is the number of features lacking a required key; the run aborts exactly when the dictionary is empty, and otherwise returns the dictionary the loop builds |
| Records.LoadedKeys | benes_du_2.py:57-67 | a label is in the dictionary exactly when some feature reads as an entry under it |
| Records.LastWriteValue | benes_du_2.py:67 | the value under a label is the point of the last feature that reads as an entry under that label |
| Records.LastWriteWins | benes_du_2.py:57-67 | last write wins: presence by some entry, value by the last one, for every label |
| Records.LoadedFromEntries | benes_du_2.py:57-69 | every dictionary item is the label and point of some feature that read as an entry; a feature that raised `KeyError` contributes nothing |
| Records.OnlyOpenContainers | benes_du_2.py:42-44 | every item of the container dictionary comes from a feature whose PRISTUP is "volně", with that station name and those coordinates |
| Records.IneligibleContainerIgnored | benes_du_2.py:64-65 | a container that is not open changes neither the dictionary nor the invalid count |
| Records.LoadedSize | benes_du_2.py:57-69 | dictionary size plus invalid count is at most the number of features, and equals it when labels do not repeat and no container is ineligible |
| Distances.Nearest | benes_du_2.py:93-100 | with no container the value is -1; otherwise it is at most the distance to every container and equal to the distance to one of them |
| Distances.ScanContainers | benes_du_2.py:93-100 | the running minimum with the `prvni` flag ends at -1 for no container, and otherwise at a distance to some container that no container undercuts |
| Distances.MinimumIsNearest | benes_du_2.py:93-100 | the loop's minimum and the nearest distance are the same value |
| Distances.NearestDistances | benes_du_2.py:87-108 | aborts exactly when some address's nearest distance (`Nearest`, which is -1 when there is no container) exceeds 10,000; otherwise one item per address, in address order, holding its nearest distance, each at most 10,000 |
| Distances.TableBounds | benes_du_2.py:93-104 | with a non-empty container dictionary and a true square root, every reported distance is between 0 and 10,000: the sentinel -1 never survives |
| Distances.NearestBySquares | benes_du_2.py:96-100 | a container attains the nearest distance exactly when no container is closer by squared distance |
| Statistics.Max | benes_du_2.py:143 | `max(values)` is at least every value and equal to one of them |
| Statistics.Mean | benes_du_2.py:139 | `sum/len` lies between the least and the greatest value |
| Statistics.SumPermutation | benes_du_2.py:139 | the sum does not depend on the order of the values |
| Statistics.MeanPermutation | benes_du_2.py:139 | the mean does not depend on the order of the values |
| Statistics.InsertAt | benes_du_2.py:112 | one insertion step extends the ascending prefix by one element, keeps the same values and leaves every element after it untouched |
| Statistics.SortInPlace | benes_du_2.py:112 | `sort()` leaves the list ascending and holding the same values |
| Statistics.Median | benes_du_2.py:110-120 | the result is the middle of an ascending rearrangement of the values: index `(n-1)//2` for odd n, the average of that element and the next for even n |
| Statistics.SortedUnique | benes_du_2.py:112 | two ascending lists holding the same values are equal, so the sorted copy is determined by the values |
| Statistics.MedianOrderIndependent | benes_du_2.py:110-120 | the median of two rearrangements of the same values is the same |
| Statistics.MedianBounds | benes_du_2.py:110-120 | the median lies between the least and the greatest value |
| Statistics.MedianExamples | benes_du_2.py:113-120 | [10, 20, 30, 40] gives 25 and [5, 1, 9] gives 5 |
| Statistics.Farthest | benes_du_2.py:143-147 | the maximum is at least every distance, and the returned label is that of the last item holding it |
| Pipeline.Run | benes_du_2.py:133-147 | the run aborts exactly when a dataset yields no entry or an address has no container within 10,000. Otherwise it reports both dictionary sizes, the mean of the distance table, its median, its maximum with the last label attaining it, and every distance lies in [0, 10,000] |

## Left out

- Opening the files, the `FileNotFoundError` and `PermissionError` handling, and `os.chdir` (lines 17-26, 125): operating-system I/O.
- JSON parsing and the `"features"` lookup (lines 28-35): a library call. The model takes the parsed list of features as input.
- The pyproj transformer (lines 9-15, 51, 123): foreign geodesy on floats. It is a function parameter; its numerics and its argument order are not checked.
- Floating point: `sqrt` is a parameter characterised by `IsSqrt`, and all arithmetic is on exact reals. Rounding and the `:.0f` formatting of the report (lines 151-160) are not modelled.
- Console output: the warning with the invalid count and the error messages (lines 76, 79, 103). `LoadData` returns the count, and every `exit()` is `Abort`.
- JSON values other than strings and number pairs are not modelled: a null STATIONNAME (which the code would skip as `None`), a coordinate list with fewer than two numbers (an uncaught `IndexError`), and non-string street names (an uncaught `TypeError`).
- Records.ReadAddress: the coordinates are taken as a pair, so an `IndexError` from a short coordinate list is not modelled.
