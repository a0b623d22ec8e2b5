# Service locator: nearest-location selection

This project models the computational core of a small HTTP service that
answers a caller's `(lat, lon)` with the nearest service location
(`UNIT_NM`, `UNIT_ADDR`, `distance_km`) taken from a fetched list of records.
The core is the `/nearest` handler's linear scan, in `main.py`:

- Each record is a JSON value. A record's `LAT` and `LON` fields are converted
  with Python's `float`. An absent field reads as `0`. When the conversion
  raises, the record is skipped. The bare `except` catches every failure,
  including `row.get` on a record that is not a mapping.
- The scan measures the haversine distance from the caller to each record that
  was not skipped. It keeps a record only when that distance is strictly below
  the smallest distance so far, which starts at infinity.
- When the kept record is falsy, the handler answers
  `"No valid UNIT location found"`. Falsy means that no record was kept, or that
  the kept record is an empty mapping. Otherwise the answer is the kept
  record's `UNIT_NM` and `UNIT_ADDR` (each possibly absent) and the distance.

Everything is in `locator.dfy`, module `ServiceLocator`:

- `Json` is the decoded payload value. A record is a `Json` value.
- `Env` carries the computations the model does not spell out. They are
  Python's `float` on a decoded number (`floatOfNumber`) and on a string
  (`floatOfText`), and the haversine distance (`haversine`).
- `Float`, `FieldAsFloat` and `Coords` model `float(row.get(key, 0))` on both
  fields. `Candidate` says that a record gets past the `try` block.
- The selection is specified by the predicate `IsFirstNearest(env, p, rows, i)`. It
  holds when `rows[i]` is a candidate, no candidate is closer, and every
  earlier candidate is strictly farther.
- `SelectClosest` is the loop, with `closest` and `minDist` as in the source.
  Infinity is `None`. The loop is proved against `IsFirstNearest`.
  `Nearest` adds the final truthiness test and builds the `Response`.

Two behaviours of the code are kept as written. The bare `except` skips a
record on any failure, whatever the exception. The error test is the
truthiness of the kept record (`Truthy`), so an empty record `{}` reads as
(0, 0), can be kept, and then produces the error even when other records are
valid (`EmptyRecordSelected` together with `Nearest`). An absent coordinate
reading as 0 is kept as written too (`MissingCoordinateDefaultsToZero`).

## Model

| member | source | states |
|---|---|---|
| `ServiceLocator.SelectClosest` | main.py:42-56 | No record is kept exactly when no record converts. When one is kept, it is an element of the input that is minimal among all candidates and earlier than every other candidate at that distance, and `minDist` is its distance. `minDist` is "infinity" exactly when nothing is kept. |
| `ServiceLocator.Nearest` | main.py:42-66 | The answer is the "no valid location" error exactly when no record converts or the selected record is an empty mapping. Otherwise it is the selected, non-empty record's `UNIT_NM`, `UNIT_ADDR` and distance. |
| `ServiceLocator.Float` | main.py:47-48 | `float` always raises on null, lists and mappings, and gives 1.0 for true and 0.0 for false. |
| `ServiceLocator.FieldAsFloat` | main.py:47-48 | An absent key reads as 0.0, which always converts. A present key's value goes through `float`. |
| `ServiceLocator.Coords` | main.py:46-50 | None exactly when the record is not a mapping or `float` raises on a present `LAT` or `LON`. Otherwise each coordinate is the converted field, or 0.0 when the field is absent. |
| `ServiceLocator.Truthy` | main.py:58 | Python truthiness of the kept record. No kept record (`None`) is falsy. A kept mapping is falsy exactly when it is `{}`. |
| `ServiceLocator.FirstNearestExists` | main.py:45-56 | Whenever some record converts, an earliest nearest record exists, so the selection is total. |
| `ServiceLocator.FirstNearestUnique` | main.py:54-56 | At most one record is the earliest at the minimum distance, so the selection is determined by the input. |
| `ServiceLocator.SkippedRecordIrrelevant` | main.py:46-50 | Removing a record whose conversion fails changes neither whether the error is reported nor which record is selected (up to the index shift). |
| `ServiceLocator.TieGoesToEarlier` | main.py:54-56 | Of two candidates at equal distance, the later one is never selected. |
| `ServiceLocator.OnlyCandidateSelected` | main.py:45-56 | A record that is the only one to convert is selected, whatever its distance. |
| `ServiceLocator.MissingCoordinateDefaultsToZero` | main.py:47-48 | An absent `LAT` or `LON` reads as 0. Such a record is still a candidate exactly when its other coordinate converts. |
| `ServiceLocator.EmptyRecordSelected` | main.py:45-59 | An empty mapping converts to (0, 0). When it comes first and no candidate is closer, it is the selected record, and `Nearest` then reports the error even if valid records follow. |

## Left out

- HTTP routing, the `root` endpoint and query-parameter validation (main.py:1-5, 18-30) are not modelled. The caller's point is the parameter `p`.
- The remote fetch, its timeout, `raise_for_status`, the fetch-error answer and `resp.json()` (main.py:32-39) are network I/O. The decoded records are the parameter `rows`, assumed to be a JSON array. A payload that is not a list is not modelled.
- The body of `haversine` (main.py:9-16) is floating-point trigonometry. It is the parameter `Env.haversine`, and no property of it (symmetry, zero on equal points, non-negativity) is claimed.
- Python's `float` on decoded numbers and on strings are the parameters `Env.floatOfNumber` and `Env.floatOfText`. They may fail, as `float` does with `OverflowError` on an integer beyond the double range; that record is then skipped.
- Float: a value that converts to infinity or NaN is not modelled. Numbers are Dafny reals, so neither value exists. In the source, a JSON float literal beyond the double range decodes to `inf`, and `float("inf")` gives `inf` too. `haversine` then raises `ValueError` at main.py:52, which is outside the `try`, and the whole request fails. A NaN distance never passes `dist < min_dist`.
- The failure of the request when `haversine` raises (main.py:52) is not modelled: `Env.haversine` is total.
- Nearest: `distance_km` is the unrounded distance, because `round(min_dist, 2)` (main.py:65) is float rounding.
- The records are an immutable sequence value, so "the scan does not modify its input" holds by construction and is not stated separately.
- Serialisation of the answer to JSON is not modelled.
