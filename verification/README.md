# mockHotel in Dafny

A model of the Python core of mockHotel, a small hotel-search demo for serverless functions,
with proofs about that model. The core consists of five scripts:

- `hotelSearch` (`backend/Hotel-DSL/code/index.py`) draws `n` random points. It stable-sorts
  them by squared distance to a query point and keeps the first `k`. Each kept point is tagged
  with the run's uuid and one more random draw.
- The mock location search (`frontend/mock-backend/find_hotels.py`):
  - hashes a place name with md5 to grid coordinates;
  - reads `hotels.txt` line by line;
  - returns the ten hotels nearest to those coordinates.
- The mock booking handler (`frontend/mock-backend/book_hotel.py`) checks the hotel name. It
  answers with `CONF-` followed by the name's hash modulo 1000000.
- The hotel file generator (`frontend/mock-backend/gen.py`) writes one
  `brand,name,x,y,price,rating` line per hotel.
- The profiling script (`backend/profile/profile.py`) reads a restore latency out of a log
  with a regular expression. It sweeps one to five vCPUs, turning each latency into a cost
  record.

The model is made of these modules:

- `Results`: `Option`, `Result`, and a loop that stops at the first exception.
- `Text`: `str.strip`, `str.split`, `sep.join`, and the lines of a text file.
- `Decimal`:
  - `str(int)` and `int(str)`;
  - the decimal-numeral part of `float(str)`;
  - the `.2f` and one-decimal renderings `gen.py` writes.
- `Hex`: `int(s, 16)`.
- `StableSort`: Python's stable sort and the slice `[:k]`.
  - The sort is specified by what any stable sort must deliver: ordered by key, a permutation,
    and equal keys kept in input order.
  - An insertion sort is proved to meet that specification.
  - It is proved to be the only function that does, so results about it hold for Python's
    `sorted`/`list.sort`.
- `HotelSearch`, `FindHotels`, `GenHotels`, `BookHotel` and `Profile`: one module per script.

Everything non-deterministic or external becomes a parameter:

- the random stream (`uniform: nat -> real`, the i-th draw);
- the per-line draws of the generator (`draw: nat -> Draw`);
- `hashlib.md5(...).hexdigest()` (`md5: string -> Digest`);
- Python's `hash` (`hash: string -> int`);
- the uuid (`runId`);
- the content of the files read;
- what each `run_command(v)` returned (`run: nat -> Option<int>`).

Exceptions become `Result.Failure` values that carry which exception was raised.

## Model

| member | source | states |
|---|---|---|
| Results.MapAll | frontend/mock-backend/find_hotels.py:14-23 | a loop whose body may raise succeeds exactly when every element's step succeeds; the result has one value per element, in order |
| Results.MapAllFirstError | frontend/mock-backend/find_hotels.py:14-15 | a failed loop reports the exception of its first failing element; every element before it succeeded |
| Text.LStrip | frontend/mock-backend/find_hotels.py:15 | the result is a suffix of the input; what was dropped is whitespace; the result does not start with whitespace |
| Text.RStrip | frontend/mock-backend/find_hotels.py:15 | the result is a prefix of the input; what was dropped is whitespace; the result does not end with whitespace |
| Text.Strip | frontend/mock-backend/find_hotels.py:15 | the stripped text has no whitespace at either end |
| Text.StripSlice | frontend/mock-backend/find_hotels.py:15 | the stripped text is a contiguous slice of the input, with only whitespace on both sides |
| Text.StripPadded | frontend/mock-backend/find_hotels.py:15 | padding clean text with whitespace on either side and then stripping gives the text back |
| Text.StripClean | frontend/mock-backend/find_hotels.py:15 | stripping leaves text with no whitespace at its ends unchanged |
| Text.IndexOf | backend/profile/profile.py:23 | the position found holds the character, and no earlier position does; no result means the character is absent |
| Text.Split | frontend/mock-backend/find_hotels.py:15 | `split(',')` yields at least one piece, and no piece holds the separator |
| Text.JoinSplit | frontend/mock-backend/find_hotels.py:15 | joining the pieces of a split restores the string |
| Text.SplitJoin | frontend/mock-backend/find_hotels.py:15 | splitting a join of separator-free pieces gives back the pieces |
| Text.Join | frontend/mock-backend/gen.py:16 | `sep.join(parts)`; `Text.SplitJoin` and `Text.JoinSplit` make it the inverse of `split` on separator-free pieces |
| Text.SplitTrailing | backend/profile/profile.py:29 | a trailing separator adds exactly one empty piece |
| Text.Lines | frontend/mock-backend/find_hotels.py:14 | the lines of a file are non-empty; all but the last end with a newline, and none holds a newline elsewhere |
| Text.ConcatLines | frontend/mock-backend/find_hotels.py:14 | the lines of a file, put back together, are its content |
| Text.LinesConcat | frontend/mock-backend/gen.py:7-16 | a file written as newline-terminated lines reads back as those lines |
| Text.Concat | frontend/mock-backend/gen.py:7-16 | the text of a file written line by line; `Text.ConcatLines` and `Text.LinesConcat` make it the inverse of reading lines |
| Decimal.NatToString | frontend/mock-backend/book_hotel.py:14 | `str(n)` is a non-empty run of digits with no leading zero |
| Decimal.DigitsValueOfNatToString | frontend/mock-backend/book_hotel.py:14 | the digits of `str(n)` denote `n` |
| Decimal.IntToString | frontend/mock-backend/gen.py:16 | `str(i)` is the digits of `|i|`, with a minus sign when negative |
| Decimal.ParseInt | frontend/mock-backend/find_hotels.py:21 | `int(text)` in base 10; specified by `Decimal.ParseIntSpec` and `Decimal.IntRoundTrip` |
| Decimal.ParseIntSpec | frontend/mock-backend/find_hotels.py:21 | `int` accepts exactly stripped text made of digits with at most one leading sign; only `-` gives a negative value |
| Decimal.IntRoundTrip | frontend/mock-backend/gen.py:16 | `int(str(i)) == i` for every integer |
| Decimal.EmptyIsNotInt | backend/profile/profile.py:29 | `int("")` raises |
| Decimal.ParseFloat | frontend/mock-backend/find_hotels.py:19 | `float(text)` on decimal numerals; specified by `Decimal.ParseFloatSpec`, `Decimal.PointFloat` and the two rendering round trips |
| Decimal.ParseFloatSpec | frontend/mock-backend/find_hotels.py:19 | `float` rejects blank text, and only a minus sign gives a negative value |
| Decimal.PointFloat | frontend/mock-backend/find_hotels.py:19-22 | `float("w.f")` of digit strings is the exact value of the numeral |
| Decimal.FormatCents | frontend/mock-backend/gen.py:16 | the `.2f` rendering starts and ends with a digit and holds no comma or newline |
| Decimal.FormatTenths | frontend/mock-backend/gen.py:15-16 | the one-decimal rendering starts and ends with a digit and holds no comma or newline |
| Decimal.CentsRoundTrip | frontend/mock-backend/gen.py:12-16 | `float` reads a `.2f` rendering of `c` hundredths back as `c / 100` |
| Decimal.TenthsRoundTrip | frontend/mock-backend/gen.py:15-16 | `float` reads the rendering of `t` tenths back as `t / 10` |
| Hex.ToHex | frontend/mock-backend/find_hotels.py:6 | a value rendered at a fixed width is that many hex digits |
| Hex.HexValue | frontend/mock-backend/find_hotels.py:7-8 | `int(s, 16)` of `w` hex digits is below `16^w` |
| Hex.HexRoundTrip | frontend/mock-backend/find_hotels.py:7-8 | `int(s, 16)` reads back every value rendered in enough hex digits |
| StableSort.Insert | frontend/mock-backend/find_hotels.py:38 | inserting adds exactly the one element, so the result is a permutation |
| StableSort.InsertSorted | frontend/mock-backend/find_hotels.py:38 | inserting into a sorted sequence keeps it sorted |
| StableSort.InsertStable | frontend/mock-backend/find_hotels.py:38 | the inserted element comes after every element with the same key |
| StableSort.Sort | frontend/mock-backend/find_hotels.py:38 | the sort keeps length and multiset of elements |
| StableSort.SortIsStableSort | frontend/mock-backend/find_hotels.py:38 | the sort is ordered by key, is a permutation, and keeps elements with equal keys in input order |
| StableSort.StableSortUnique | backend/Hotel-DSL/code/index.py:34 | two stable sorts of the same input are equal |
| StableSort.StableSortsAgree | backend/Hotel-DSL/code/index.py:34 | any stable sort of the input equals the model's sort |
| StableSort.SliceEnd | backend/Hotel-DSL/code/index.py:42 | `s[:k]` keeps `min(k, len)` elements for `k >= 0`, and drops the last `-k` elements otherwise |
| StableSort.Take | backend/Hotel-DSL/code/index.py:42 | Python's `s[:k]`; its length is `StableSort.SliceEnd` |
| StableSort.SortedPrefix | backend/Hotel-DSL/code/index.py:34-42 | the stable sort followed by `[:k]`; specified by `StableSort.SortedPrefixSpec` |
| StableSort.SortedPrefixSpec | backend/Hotel-DSL/code/index.py:34-42 | top-k selection: the slice's length; ordered by key; no duplicates; equal keys in input order; no element left out has a smaller key than one kept |
| StableSort.SortedPrefixZero | backend/Hotel-DSL/code/index.py:42 | `[:0]` selects nothing |
| HotelSearch.SqDistSymmetric | backend/Hotel-DSL/code/index.py:27-28 | the distance function is symmetric in its two points |
| HotelSearch.SqDist | backend/Hotel-DSL/code/index.py:27-28 | the squared distance; specified by the symmetry, zero and non-negativity lemmas |
| HotelSearch.SqDistZero | backend/Hotel-DSL/code/index.py:27-28 | a point is at distance zero from itself |
| HotelSearch.SqDistNonNeg | backend/Hotel-DSL/code/index.py:27-28 | the squared distance is never negative |
| HotelSearch.QueryOf | backend/Hotel-DSL/code/index.py:23-25 | the query point, `(10, 20)` for absent fields; used by `HotelSearch.DefaultSearch` |
| HotelSearch.Candidates | backend/Hotel-DSL/code/index.py:15-21 | `Max(n, 0)` points; point `i` takes draws `2i` and `2i + 1` |
| HotelSearch.Search | backend/Hotel-DSL/code/index.py:7-47 | the output length follows the slice `[:k]`; every record carries the run id; the value of record `i` is draw `2n + i` |
| HotelSearch.SearchCoords | backend/Hotel-DSL/code/index.py:30-43 | the returned coordinates are the top-k selection from the candidates by distance to the query |
| HotelSearch.SearchSorted | backend/Hotel-DSL/code/index.py:27-34 | the returned points are candidates, nearest to the query first |
| HotelSearch.Decorate | backend/Hotel-DSL/code/index.py:36-43 | one record per kept point, in order, each tagged with the run id and the next draw |
| HotelSearch.SearchSelectsNearest | backend/Hotel-DSL/code/index.py:30-42 | no candidate is returned twice; no candidate left out is nearer than one returned; equidistant points keep generation order |
| HotelSearch.SearchTakesFirstKOfStableSort | backend/Hotel-DSL/code/index.py:34-42 | the returned coordinates are the first `k` of any stable sort of the candidates by distance |
| HotelSearch.DefaultSearch | backend/Hotel-DSL/code/index.py:10-24 | an empty request returns 10 points ordered by distance to (10, 20), with values from draws 2000 to 2009 |
| HotelSearch.EmptySearches | backend/Hotel-DSL/code/index.py:16-42 | `k = 0`, or a count of zero or less, returns no points |
| FindHotels.DigestToCoords | frontend/mock-backend/find_hotels.py:7-8 | both coordinates lie in `[0, 100)` |
| FindHotels.DigestCoordsLocal | frontend/mock-backend/find_hotels.py:7-8 | `x` depends only on hex digits 0-7 and `y` only on digits 8-15 |
| FindHotels.DigestCoordsOfNumbers | frontend/mock-backend/find_hotels.py:7-8 | a digest spelling the numbers `a` and `b` in its first sixteen digits gives `(a mod 100, b mod 100)` |
| FindHotels.HashToCoords | frontend/mock-backend/find_hotels.py:4-9 | the coordinates of a place are those of its digest, and both lie in `[0, 100)` |
| FindHotels.Fields | frontend/mock-backend/find_hotels.py:15 | a line has at least one comma-free field |
| FindHotels.RecordOfFields | frontend/mock-backend/find_hotels.py:15-23 | six fields whose numbers convert give the record with exactly those fields |
| FindHotels.ParseHotel | frontend/mock-backend/find_hotels.py:15-23 | one iteration of the reading loop; specified by `FindHotels.ParseHotelSpec`, `FindHotels.WrongFieldCount` and `FindHotels.BlankLineRejected` |
| FindHotels.ParseHotelSpec | frontend/mock-backend/find_hotels.py:15-23 | a line is accepted exactly when it has six fields and the four numeric ones convert; the record's fields are the converted ones; a wrong field count raises before any conversion |
| FindHotels.ParseSixFields | frontend/mock-backend/find_hotels.py:15-23 | a line whose stripped text is the comma join of six comma-free fields splits back into them, and reads as their record when the four numbers convert |
| FindHotels.WrongFieldCount | frontend/mock-backend/find_hotels.py:15 | fewer than six fields raise "not enough values", more raise "too many values" |
| FindHotels.BlankLineRejected | frontend/mock-backend/find_hotels.py:15 | a whitespace-only line has one field and makes the unpacking raise |
| FindHotels.ParseHotels | frontend/mock-backend/find_hotels.py:11-24 | the file reads exactly when every line does; one record per line, in line order |
| FindHotels.ParseHotelsAll | frontend/mock-backend/find_hotels.py:11-24 | lines that each read as a given record read as the list of those records |
| FindHotels.ParseHotelsFirstError | frontend/mock-backend/find_hotels.py:14-15 | the exception raised is that of the first line that does not read |
| FindHotels.ReadHotels | frontend/mock-backend/find_hotels.py:11-24 | `read_hotels` of the file content; `GenHotels.GenerateReadRoundTrip` states what it reads from a generated file |
| FindHotels.SqDistanceTo | frontend/mock-backend/find_hotels.py:36 | the square of the distance the handler attaches; `FindHotels.SqDistanceNonNeg` states it is never negative |
| FindHotels.SqDistanceNonNeg | frontend/mock-backend/find_hotels.py:36 | the squared distance is never negative |
| FindHotels.Nearest | frontend/mock-backend/find_hotels.py:38 | `min(10, len)` results, nearest first, each a hotel from the file with its own distance |
| FindHotels.NearestSelects | frontend/mock-backend/find_hotels.py:38 | no hotel is returned twice; no hotel left out is nearer than one returned; equidistant hotels keep file order |
| FindHotels.NearestIsFirstTenOfStableSort | frontend/mock-backend/find_hotels.py:38 | the results are the first ten of any stable sort by distance |
| FindHotels.Handle | frontend/mock-backend/find_hotels.py:26-39 | fails exactly when reading the file fails, with its exception; otherwise echoes the location (default `Beijing`), its coordinates and the nearest hotels |
| FindHotels.DefaultLocationUsed | frontend/mock-backend/find_hotels.py:31 | a request without a location that reads the file searches around the coordinates of `Beijing` |
| GenHotels.ListsClean | frontend/mock-backend/gen.py:3-4 | no brand or city holds a comma, a newline or a `#`, and no brand is empty or starts with whitespace |
| GenHotels.GenerateLines | frontend/mock-backend/gen.py:6-16 | one line per iteration of `range(n)`, none for `n <= 0` |
| GenHotels.HotelName | frontend/mock-backend/gen.py:11 | the name of line `i`; `GenHotels.HotelNameNumber` and `GenHotels.HotelNamesDistinct` state what it determines |
| GenHotels.Line | frontend/mock-backend/gen.py:16 | the line written for a hotel; `GenHotels.LineShape` and `GenHotels.LineRoundTrip` state its shape and that it reads back |
| GenHotels.LineFields | frontend/mock-backend/gen.py:16 | a written line has six fields |
| GenHotels.NameClean | frontend/mock-backend/gen.py:11 | a generated name is non-empty and free of commas and newlines |
| GenHotels.LineFieldsShape | frontend/mock-backend/gen.py:16 | with a clean name every field is clean, and the line has no whitespace at its ends |
| GenHotels.LineShape | frontend/mock-backend/gen.py:16 | a written line ends with its only newline |
| GenHotels.HotelLineShape | frontend/mock-backend/gen.py:16 | each generated line is exactly one line of the file |
| GenHotels.TerminatedStrip | frontend/mock-backend/gen.py:16 | stripping a written line removes only its newline |
| GenHotels.LineXReads | frontend/mock-backend/gen.py:12-16 | the written `x` reads back as the drawn hundredths |
| GenHotels.LineYReads | frontend/mock-backend/gen.py:13-16 | the written `y` reads back as the drawn hundredths |
| GenHotels.LinePriceReads | frontend/mock-backend/gen.py:14-16 | the written price reads back as the drawn price |
| GenHotels.LineRatingReads | frontend/mock-backend/gen.py:15-16 | the written rating reads back as the drawn tenths |
| GenHotels.LineSplits | frontend/mock-backend/gen.py:16 | stripping and splitting a written line gives back its six fields |
| GenHotels.LineFieldsRecord | frontend/mock-backend/gen.py:9-16 | unpacking and converting the six written fields gives the drawn record |
| GenHotels.LineRoundTrip | frontend/mock-backend/gen.py:9-16 | a line written for a clean name reads back as its drawn record |
| GenHotels.HotelLineRoundTrip | frontend/mock-backend/gen.py:8-16 | each generated line reads back as its record: brand and name verbatim, coordinates to the hundredth, price, rating to the tenth |
| GenHotels.GeneratedLinesShape | frontend/mock-backend/gen.py:7-16 | every generated line ends with its only newline |
| GenHotels.GeneratedLinesRead | frontend/mock-backend/gen.py:8-16 | every generated line reads back as its drawn record |
| GenHotels.GenerateReadRoundTrip | frontend/mock-backend/gen.py:6-16 | reading the file the generator writes gives back all the drawn records, in order |
| GenHotels.HotelNameNumber | frontend/mock-backend/gen.py:11 | the name of line `i` holds one `#`, followed by the digits of `i + 1` |
| GenHotels.HotelNamesDistinct | frontend/mock-backend/gen.py:8-11 | different lines never carry the same name, whatever was drawn |
| BookHotel.PyMod | frontend/mock-backend/book_hotel.py:14 | Python's `%` by a positive modulus lies in `[0, m)` and differs from the operand by a multiple of `m` |
| BookHotel.ConfirmationId | frontend/mock-backend/book_hotel.py:14 | the confirmation number starts with `CONF-` and has more after it |
| BookHotel.Book | frontend/mock-backend/book_hotel.py:1-15 | rejects exactly a missing or empty name, with status `error` and its message; otherwise answers `success` with the name and its confirmation number |
| BookHotel.ConfirmationIdReads | frontend/mock-backend/book_hotel.py:14 | the number after `CONF-` reads back as a value in `[0, 999999]` congruent to the hash |
| BookHotel.NatToStringInjective | frontend/mock-backend/book_hotel.py:14 | different remainders print differently |
| BookHotel.SameRemainder | frontend/mock-backend/book_hotel.py:14 | two hashes have the same remainder exactly when their difference is a multiple of 1000000 |
| BookHotel.ConfirmationIdsAgree | frontend/mock-backend/book_hotel.py:14 | two hashes give the same confirmation number exactly when they agree modulo 1000000 |
| Profile.SkipSpaces | backend/profile/profile.py:23 | greedy `\s*` stops at the first non-whitespace character |
| Profile.SkipSpacesTo | backend/profile/profile.py:23 | whitespace followed by a non-space character is skipped exactly up to it |
| Profile.MatchAt | backend/profile/profile.py:23-24 | a match anchored at `p` is found exactly when the pattern matches there; the match is then the only one |
| Profile.AnchoredUnique | backend/profile/profile.py:23 | given its start, a match has one opening and one closing bracket |
| Profile.Leftmost | backend/profile/profile.py:24 | `re.search` finds the leftmost match, and none when the pattern matches nowhere |
| Profile.Capture | backend/profile/profile.py:24-27 | group 1 is non-empty and holds no `]`; no capture means the pattern matches nowhere |
| Profile.CaptureAt | backend/profile/profile.py:24-27 | a match at `p`, when no match starts before `p`, is the one captured; with the `None` case of `Profile.Capture` this fixes group 1 for every content |
| Profile.CaptureOfList | backend/profile/profile.py:23-27 | in a log where no match starts before `x: [`, the capture runs to the next `]` |
| Profile.StripBeforeInt | backend/profile/profile.py:29 | stripping before `int` changes nothing |
| Profile.SameStripSameInt | backend/profile/profile.py:29 | `int` sees only the stripped text |
| Profile.LastConverted | backend/profile/profile.py:29-34 | a value exactly when the list is non-empty and every piece converts; the value is the last piece's conversion |
| Profile.LastInt | backend/profile/profile.py:29-34 | the last value exactly when every piece is an integer literal; the value is that of the last piece |
| Profile.XValues | backend/profile/profile.py:29 | the list comprehension `[int(x.strip()) for x in ...split(',')]`; `Profile.ValueListNeverEmpty` states its result is never empty |
| Profile.LatencyFromLog | backend/profile/profile.py:22-40 | no latency when the pattern does not match |
| Profile.ValueListNeverEmpty | backend/profile/profile.py:31-37 | a converted value list is never empty, so the "no valid x" branch is dead |
| Profile.TrailingCommaRejected | backend/profile/profile.py:29 | a list with a trailing comma yields no latency |
| Profile.IntToStringChars | backend/profile/profile.py:29 | a printed integer is made of a sign and digits and ends in a digit |
| Profile.PaddedParse | backend/profile/profile.py:29 | leading spaces do not change what `int` reads |
| Profile.PaddedIntParses | backend/profile/profile.py:29 | `int` reads a space-padded `str(v)` as `v` |
| Profile.PaddedIntChars | backend/profile/profile.py:29 | a padded printed integer holds only spaces, signs and digits |
| Profile.PieceParses | backend/profile/profile.py:29 | each piece of a printed list reads as its value and holds no comma, `]` or `x` |
| Profile.RenderShape | backend/profile/profile.py:23-29 | a printed list splits back into its pieces and holds no `]` or `x` |
| Profile.LastPrinted | backend/profile/profile.py:31-34 | the pieces of a printed list report its last value |
| Profile.LastOfParsed | backend/profile/profile.py:31-34 | pieces that read as given values report the last of them |
| Profile.LoggedListRoundTrip | backend/profile/profile.py:22-34 | a log printing `x: [v0, ..., vn]`, with no match starting in the text before it, reports `vn`, whatever follows |
| Profile.NoXNoMatch | backend/profile/profile.py:23-24 | text with no `x` in it starts no match |
| Profile.MaxLogReportsLast | backend/profile/profile.py:22-34 | an `x` not followed by `:` starts no match: the log `max 3\nx: [1, 2]` reports 2 |
| Profile.Config | backend/profile/profile.py:61 | the label `1-<vcpu*1000>-0`; specified by `Profile.ConfigFields` and `Profile.ConfigsDistinct` |
| Profile.RunCommand | backend/profile/profile.py:18-47 | a missing or unreadable log gives no latency; otherwise the latency comes from the log's content |
| Profile.ConfigFields | backend/profile/profile.py:61 | the label splits at its dashes into `1`, the millicores and `0` |
| Profile.ConfigsDistinct | backend/profile/profile.py:61 | different vCPU counts get different labels |
| Profile.Cost | backend/profile/profile.py:57 | `(vcpu * latency) / 30`, the cost of a run; `Profile.CostScales` states it |
| Profile.CostScales | backend/profile/profile.py:57 | the cost times 30 is the vCPU count times the latency |
| Profile.Record | backend/profile/profile.py:54-65 | app `hotelsearchv3`, the vCPU's label, empty profile, latency in seconds from milliseconds |
| Profile.RecordCost | backend/profile/profile.py:57-63 | a record's cost is `vcpu * latency / 30` |
| Profile.Sweep | backend/profile/profile.py:52-66 | the loop completes exactly when every run returned a latency, with one record per vCPU count in order |
| Profile.SweepFirstFailure | backend/profile/profile.py:52-54 | an aborted loop names the first vCPU count whose run returned nothing |
| Profile.Main | backend/profile/profile.py:49-66 | `main` writes output exactly when all five runs return a latency, and then writes five records |
| Profile.AllRunsSucceed | backend/profile/profile.py:52 | every run in the sweep succeeding is every count from 1 to 5 succeeding |
| Profile.MainRecords | backend/profile/profile.py:52-66 | on success, record `i` is the record of `i + 1` vCPUs |
| Profile.MainStopsAtFirstFailure | backend/profile/profile.py:52-54 | a crash names the smallest vCPU count whose run returned nothing |
| Profile.MainSkipping | backend/profile/profile.py:56-69 | the intended sweep records at most one record per vCPU count |
| Profile.Succeeded | backend/profile/profile.py:56-69 | exactly the vCPU counts whose runs succeeded, in sweep order |
| Profile.MainSkippingRecords | backend/profile/profile.py:56-69 | the intended sweep writes exactly one record per successful run, in sweep order |
| Profile.SucceededAll | backend/profile/profile.py:56 | with no failed run, every vCPU count is kept |
| Profile.MainSkippingAgrees | backend/profile/profile.py:52-69 | when every run succeeds, the written and the intended sweep give the same five records |
| Profile.FirstRunFailureCrashes | backend/profile/profile.py:54 | a failing one-vCPU run crashes `main` on that run |
| Profile.OnlyFirstFailureSkipped | backend/profile/profile.py:56-69 | when only the first run fails, the intended sweep records all the others |
| Profile.FirstRunFailureSkipped | backend/profile/profile.py:56-69 | when only the one-vCPU run fails, the intended sweep records two to five vCPUs |
| Profile.MissingLogCrashes | backend/profile/profile.py:54-56 | when only the one-vCPU run fails, `main` as written crashes, while the intended sweep writes four records |

## Left out

- I/O is not modelled:
  - opening and reading `/etc/mitosis/plot.log`, `hotels.txt` and the UTF-8 decoding;
  - writing `hotels.txt` and `results.json`.
  File contents are parameters or results, and the JSON layout of `results.json` is not modelled.
- The `subprocess.run` of the restore command and the unused `start_time` are not modelled, because they are external effects. `run_command` is modelled from the log content on.
- `print`, `time.sleep` and the `:.6f` formatting in printed messages are left out: they only produce console output or delay.
- `uuid.uuid4()`, `random.seed`, `random.uniform`, `random.choice` and `random.randint` become parameters, because randomness cannot be modelled as a function:
  - The stream is not constrained to `[0, 100]`; the proofs do not need the range.
  - The generator's draws are typed by their ranges.
- `hashlib.md5` and Python's `hash` are parameters. Neither is computed, because `hash` depends on the process's hash seed.
- `FindHotels.Nearest`: uses the squared distance rather than `math.sqrt` of it. `sqrt` is monotone, so the order and the selection are the same, but the `distance` value stored in each result is its square here.
- Floating point is modelled as exact reals:
  - binary rounding of `latency * 0.001`, `vcpu * latency / 30` and the distance arithmetic;
  - the `.2f` and `round(..., 1)` roundings of the generator's uniform draws, whose rounded results are the drawn hundredths and tenths.
- `float()` is modelled only for optionally signed decimal numerals. Exponents, `inf`, `nan` and underscores are left out, because the generated file never contains them.
- `int()` is modelled only for optionally signed ASCII digits. Underscores and non-ASCII digits are left out.
- Whitespace for `strip`, `split` and `\s` is ASCII whitespace only. Python also counts other Unicode whitespace and the separators `\x1c`-`\x1f`.
- Universal-newline translation (`\r\n` becoming `\n`) when reading a text file is left out. `Text.Lines` splits at `\n`.
- Event fields are typed:
  - `hotel_name` and `location` are strings;
  - `n` and `k` are integers;
  - the query coordinates are reals.
  Python's truthiness of non-string names and the `TypeError` from a non-integer `n` are left out.
- A negative `n` or `k` is not rejected by the code, and the model follows the code:
  - `range(n)` is empty for `n <= 0`;
  - a negative `k` makes `[:k]` drop the last `-k` points (`StableSort.SliceEnd`).
- The FaaS runtime wrapper (`frt.input`, `frt.output`, `export`) is not modelled. The mock API server, `hotel.py` and the front end are not part of this model.
- Exceptions other than those the parsing raises are left out: out-of-memory, and any I/O error apart from a missing or unreadable log.
- `HotelSearch.Search`: assumes Python 3.10 or earlier, where `random.seed` accepts the `uuid.UUID` object and seeds from its hash. From Python 3.11 on, `random.seed(unique_id)` at index.py:14 raises `TypeError`, so the handler always fails there; the model's search does not show that failure.
- `Decimal.ParseIntSpec`: accepts digit runs of any length. From Python 3.11 on, `int()` raises `ValueError` for a decimal string of more than 4300 digits, which also bounds what `Profile.LastInt` can read.
- `Profile.Record`: latency and cost are exact over unbounded integers. `run_command(vcpu)*0.001` at profile.py:54 raises `OverflowError` for a value beyond the float range, which is not modelled.
- `Decimal.FormatTenths`: renders every count of tenths positionally. Python's float `str` switches to exponent notation from `1e16` (`str(1e16)` is `'1e+16'`), which the generator's ratings of 3.0 to 5.0 never reach.
- `Profile.LatencyFromLog`: its own contract states only the no-match case. What a well-formed log yields is stated by `Profile.LoggedListRoundTrip`, and a malformed list by `Profile.TrailingCommaRejected`.

## Findings

| source | as written | input that shows it | evidently intended | confidence | as-written member | corrected member |
|---|---|---|---|---|---|---|
| backend/profile/profile.py:54-69 | `run_command(vcpu)*0.001` is evaluated before `if latency is not None`, so a run that returns `None` raises `TypeError`, `main` aborts before writing `results.json`, and the `else` branch is dead | `run_command(1)` returns `None` (missing log), the runs on 2 to 5 vCPUs return latencies | skip the failed run and record the other four | not executed | Profile.MissingLogCrashes | Profile.MainSkippingRecords |
