# 12306 ticket query: trip filtering and transfer matching

A Dafny model of the trip-discovery core of a command-line tool that queries
the 12306 railway ticketing site for trains between two stations on a date,
keeps the ones that can be booked, and pairs the trains of two legs of a
journey into connections whose layover at the transfer station is 25 to 60
minutes. Once the network call and the file read are taken out, the core
has four parts:

- **Trip records** (`TripRecords`, `trip_records.dfy`). A record
  (`lineInfo`) is the list of `|`-separated fields of one entry of the
  query's result. It is read by position: train code 3, from/to station
  telecodes 6/7, start/arrival time 8/9, can-buy flag 11, second-class
  seats 30. `SplitLines` is the loop of `QueryTickets` that splits each
  raw entry; it does not check how many fields a record has. Go panics when
  an operation indexes past the end of a record, so each operation requires
  exactly the fields it reads: `FilterLinesCanNotBuy` field 11,
  `FilterStationNotMatch` fields 6 and 7, `FilterLinesWithoutSeatGrade2`
  field 30, `ResolveTransfer` field 9 of every first leg and field 8 of
  every second leg (once there is a first leg). `CommonGetLines` requires
  field 11 of every record and field 30 only of the records that pass the
  first two filters (`ChainReadable`).
- **Filters** (`Filters`, `filters.dfy`). `FilterLinesCanNotBuy` keeps
  records whose field 11 is `"Y"`. `FilterStationNotMatch` keeps records
  whose fields 6 and 7 are the queried `from` and `to`.
  `FilterLinesWithoutSeatGrade2` drops `"无"`, keeps `"有"` and keeps any
  other value only when `MustInt` of it is at least 2. Each filter is a loop
  that appends to a fresh result. Each is proved equal to `Keep` (the
  generic order-preserving selection in `Sequences`, `sequences.dfy`) of its
  predicate. `CommonGetLines` is the chain of `commonGetLines`, applied to
  the records a query returned.
- **Time arithmetic** (`TimeStrings`, `time_strings.dfy`).
  `TimeString2Min` reads `HH:MM` as minutes by byte arithmetic. A string
  that fails the format check reads as 0. `TimeGap(a, b)` is the
  difference of two readings. `TrainTransfer.Gap` is
  `TimeGap(second[8], first[9])`.
- **Transfer matching** (`Transfers`, `transfers.dfy`). `ResolveTransfer`
  is the nested scan over `firstLines` × `secondLines`. It keeps each pair
  whose gap lies in `[25, 60]`. The output is in (i, j) order, with no
  deduplication.
- **Station directory** (`Stations`, `stations.dfy`). `Railway12306` is the
  object behind the global `R`. It holds the two maps that
  `LoadStationNames` rebuilds from the station table's text.
  `GetStationNameByCode` falls back to the code itself.

Go strings are modelled as byte sequences (`GoStrings`, `go_strings.dfy`),
with `strings.Split` for a one-byte separator and its inverse `Join`. This
is how `timeStr[0]-'0'` gets Go's byte semantics: the subtraction of two
bytes wraps modulo 256 (`DigitValue`). It also means `"有"` and `"无"` are
compared as their UTF-8 bytes.

**The format check of `TimeString2Min` is modelled as written.** The regular
expression `[012][0-9]:[0-5][0-9]` is not anchored, so `MatchString`
succeeds when ANY five consecutive bytes match (`TimeStringMatches`). The
arithmetic still reads bytes 0, 1, 3 and 4. The value properties (the exact
value `60 * HH + MM` and the range 0 to 1799) are therefore stated for
strings that BEGIN with a well-formed `HH:MM` (`BeginsWithClock`).
`UnanchoredCheck` shows what happens to other strings that pass the check:
`" 05:30"` passes it and reads as 144103, because `' ' - '0'` wraps to
240. For a string no window of which matches, the reading is 0.

Further facts about the code that the model keeps:

- the `[012][0-9]:[0-5][0-9]` check is not anchored (12306.go:198, 205);
- `QueryTickets` does not check the length of a record (12306.go:150-154);
- the transfer window is fixed at 25 and 60 minutes (main.go:39-40) and is
  not a parameter of `resolveTransfer`. The specification function
  `Transfers` and the lemmas about it take the pair test as a parameter.
  `ResolveTransfer` uses it with `WindowOf(25, 60)`, the test that the
  layover lies in `[25, 60]`.

## Model

| member | source | states |
|---|---|---|
| `GoStrings.SplitCount` | 12306.go:110-111 | `strings.Split` on a one-byte separator gives one more piece than there are separators |
| `GoStrings.SplitJoin` | 12306.go:153 | joining the pieces of a split with the separator gives back the original string |
| `GoStrings.JoinSplit` | 12306.go:153 | splitting a join of separator-free pieces (at least one) gives back those pieces |
| `Sequences.KeepIsSubsequence` | 12306.go:158-167 | the order-preserving selection that every filter performs yields a subsequence of its input |
| `Sequences.KeepMembers` | 12306.go:158-167 | a value is in the selection if and only if it is in the input and satisfies the predicate |
| `Sequences.KeepMultiplicity` | 12306.go:158-167 | every copy of a satisfying value is kept and no copy of any other value |
| `Sequences.KeepKeep` | main.go:68-70 | two selections in a row equal one selection with the conjunction of the predicates |
| `TripRecords.SplitLines` | 12306.go:150-154 | one result per raw entry, at the same position, holding that entry's `|`-fields; the field count is the number of bars plus one; joining the fields gives back the entry |
| `Filters.FilterLinesCanNotBuy` | 12306.go:158-167 | for records with field 11 present, the result is exactly the records whose field 11 is `"Y"`, as a subsequence of the input in original order (with multiplicities, through `KeepMultiplicity`) |
| `Filters.FilterStationNotMatch` | 12306.go:186-195 | for records with fields 6 and 7 present, the result is exactly the records with field 6 = `from` and field 7 = `to`, in original order |
| `Filters.StationFilterIdempotent` | 12306.go:186-195 | applying the station filter to its own output changes nothing |
| `Filters.FilterLinesWithoutSeatGrade2` | 12306.go:169-184 | for records with field 30 present, the result is exactly the records passing the seat test, in original order |
| `Filters.SeatGrade2Cases` | 12306.go:172-180 | a record whose field 30 is `"无"` is never kept, one with `"有"` always is, and any other value is kept if and only if `MustInt` of it is at least 2 |
| `Filters.ChainIsOneFilter` | main.go:68-70 | buyable, then segment, then seat filter selects the same records as one filter on the conjunction of the three predicates |
| `Filters.CommonGetLines` | main.go:63-73 | when every read of the chain is in range (`ChainReadable`), the chain returns a subsequence of the queried records holding exactly those that satisfy all three filter predicates |
| `Filters.GetLinesNanTou2GuangZhou` | main.go:75-85 | the same chain for the fixed segment NOQ to IZQ; every record returned runs from NOQ to IZQ |
| `TimeStrings.DigitValue` | 12306.go:210 | `int(b - '0')` lies in 0 to 255 (byte wrap-around) and is the digit's value for a digit byte |
| `TimeStrings.TimeStringMatches` | 12306.go:198 | the unanchored check passes only strings of at least 5 bytes, and always passes a string that begins with a well-formed time |
| `TimeStrings.TimeStringMatchesAfterPrefix` | 12306.go:198 | any bytes put in front of a string that passes the check leave it passing: the pattern may occur anywhere |
| `TimeStrings.TimeString2Min` | 12306.go:198-211 | 0 when no five bytes match the pattern; between 0 and 1799 when the string begins with a well-formed time |
| `TimeStrings.ClockRoundTrip` | 12306.go:204-211 | a string beginning with the rendering of `HH:MM` (hours below 30, minutes below 60) passes the check and reads as `60 * HH + MM`, whatever follows |
| `TimeStrings.ClockParse` | 12306.go:204-211 | conversely, a string beginning with a well-formed time is the rendering of its reading's hours and minutes followed by the rest |
| `TimeStrings.TimeString2MinExamples` | 12306.go:204-211 | `"05:30"` reads as 330, `"24:00"` as 1440, `"bad"` as 0; the gap from `"08:30"` to `"09:00"` is 30 and to `"08:00"` is -30 |
| `TimeStrings.UnanchoredCheck` | 12306.go:198-210 | `" 05:30"` passes the unanchored check without beginning with a time, and reads as 240·600 + 0·60 + 10·10 + 3 |
| `TimeStrings.TimeGap` | 12306.go:200-202 | the gap is a reading minus another: within ±1799 for two well-formed times; an unreadable operand counts as 0 |
| `TimeStrings.TimeGapLaws` | 12306.go:200-202 | `TimeGap(a, a) == 0`, `TimeGap(a, b) == -TimeGap(b, a)`, and gaps add up along a chain |
| `Transfers.TrainTransfer.Gap` | 12306.go:218-220 | the layover `TimeGap(second[8], first[9])`: within ±1799 when both fields begin with a well-formed time, and the second leg's start reading when the first leg's arrival fails the check |
| `Transfers.ResolveTransfer` | main.go:44-61 | given field 9 of every first leg and field 8 of every second leg (`TimesReadable`), the nested scan returns the specification `Transfers` with the test `WindowOf(25, 60)`; every returned pair has its first leg in `firstLines`, its second in `secondLines`, and `25 <= Gap() <= 60` |
| `Transfers.WindowTransfersSound` | main.go:50-58 | every transfer found with a layover window pairs a given first leg with a given second leg and has its layover inside the window |
| `Transfers.TransfersCharacterization` | main.go:47-58 | the k-th transfer pairs the legs of the k-th accepted index pair; an index pair (i, j) is accepted if and only if its legs pass the pair test; accepted pairs are strictly increasing in (i, j) order, so each is produced exactly once and the pairs of `firstLines[i]` precede those of `firstLines[i+1]`; there are at most `len(firstLines) * len(secondLines)` |
| `Transfers.AcceptedPairsSound` | main.go:50-56 | every accepted index pair is in range and its legs pass the pair test |
| `Transfers.AcceptedPairsComplete` | main.go:47-56 | every in-range index pair whose legs pass the pair test is accepted |
| `Transfers.AcceptedPairsSorted` | main.go:47-58 | the accepted index pairs are strictly increasing in lexicographic (i, j) order |
| `Transfers.AcceptedPairsLength` | main.go:47-58 | there are at most `n * len(secondLines)` accepted pairs among the first n first legs |
| `Transfers.TransfersOfEmpty` | main.go:45-49 | empty `firstLines` or empty `secondLines` yields an empty result |
| `Transfers.TransfersOfEmptyWindow` | main.go:51-53 | with a layover window whose minimum is above its maximum, the result is empty whatever the legs |
| `Transfers.TransfersExample` | main.go:39-58 | a first leg arriving 10:00 and second legs leaving 10:20, 10:30 and 11:10 give exactly one transfer, with the 10:30 leg |
| `Stations.RecognizedIffTwoQuotes` | 12306.go:110-113 | the table is rejected if and only if it does not hold exactly two `'` marks |
| `Stations.StationIndexLastWins` | 12306.go:115-126 | a key is in a map built by the loading loop if and only if some entry with at least 3 fields has it in the key field, and it then maps to the value field of the last such entry |
| `Stations.Railway12306.LoadStationNames` | 12306.go:110-128 | a table not splitting into exactly 3 pieces on `'` gives the format error and leaves both maps as they were; otherwise both maps are rebuilt from scratch from the `@`-entries, code→name from fields 2→1 and name→code from fields 1→2 |
| `Stations.Railway12306.GetStationNameByCode` | 12306.go:131-136 | the mapped name of a known code, the code itself for an unknown one |
| `Stations.NameByCodeAfterLoad` | 12306.go:115-136 | after a successful load, a lookup gives the name of the last entry with that code, or the code itself when no entry has it |

## Left out

- The HTTP fetch and JSON decoding in `QueryTickets` (12306.go:139-148): network I/O and a foreign library. The decoded entries are the input of `SplitLines`, and the split records are the input of the filter chain.
- `ioutil.ReadFile` in `LoadStationNames` (12306.go:106-109) and its error return: file I/O. The table's content is a parameter.
- `svrkit.SwitchPwd` (main.go:11) and `main`'s printing (main.go:10-35), the `String()` methods (12306.go:55-64, 222-224) and the `log.Println` in `TimeString2Min` (12306.go:206): process setup and presentation.
- The query's error path in `commonGetLines` and `getLinesNanTou2GuangZhou` (main.go:64-67, 76-79): a failed `QueryTickets` makes them panic through `log.Panicln`. It is left out with the query itself; the chain starts from the records a successful query returned.
- `svrkit.MustInt` (12306.go:177): its source is not part of this model. It is the parameter `mustInt: GoString -> int`. That type assumes it is total and deterministic and never panics; nothing else is assumed about its values.
- Filters.FilterLinesWithoutSeatGrade2: says nothing about how a non-numeric seat value is treated, because that depends on `MustInt`. Its contract and `SeatGrade2Cases` stand for every `mustInt`.
- The regular-expression engine: it is replaced by the predicate `TimeStringMatches` for the one pattern used.
- `roundTrip` (12306.go:227-230): declared and never used.
- The receiver `r` of the filter and time methods, and the global `R`: the filters and time functions never touch the receiver, so they are module-level members. The two maps are fields of an explicit `Railway12306` object. Go starts `R` with nil maps, while the constructor starts with empty ones; a lookup behaves the same on both.
