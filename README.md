# Charge-time estimation of the rovy battery controller

The battery controller of the rovy robot logs the battery state every ten seconds. Each log
line holds a timestamp, the voltage, the charge percentage and the charging status. At start-up
the controller builds a **voltage history** from that log. The history maps a battery voltage
to the number of seconds a charge took from that voltage to fully charged. While the battery
charges, it uses the history to print an estimate of the time still needed, as `HH:MM:SS`.

This project models that voltage-history core of `src/battery.cpp` and proves properties of it:

- **Tokenising** (module `Text`): `trim` and `split`. These are loops over the characters,
  proved equal to the functions `Trimmed` and `Tokens`.
- **Numbers** (module `Numbers`): `stringToTime` and `stringToVolts`. They are total functions
  that read the leading number of a field, or give 0. A separate part describes the decimal
  notation the logger writes, which these functions read back.
- **The history** (module `History`): the `std::map<double, long>`. It is modelled as a
  sequence of voltage/time pairs with strictly ascending voltages, plus a `map` view `ToMap`.
  It also holds the map updates (`operator[]` assignment) and the `find` and `lower_bound`
  lookups.
- **Mining the log** (module `Miner`): `parseVoltageTimesFromLog`.
  - It is a method with the program's reverse loop and its four modes.
  - The loop is proved equal to a fold of a step function over the log.
  - That fold is proved equal to a description by positions: the newest charge session, its
    charging block, and the oldest record of the run of "fully-charged" records.
- **The cache file** (module `Cache`): `updateVoltageTimesFromHistory` and
  `writeVoltageTimesToFile`. Both are methods with the program's loops. The file is modelled by
  its decoded content: the stored entry count, and the records actually present.
- **The estimate** (module `Estimate`): `getVoltageTime` and `getDurationEstimate`. They are
  functions. Division and remainder truncate toward zero as in C++, and fields are padded as
  `setw(2)`/`setfill('0')` pad them, negative values included.

Time values are unbounded integers and voltages are exact reals. A map passed by reference is
updated in place in the program. Here it is a parameter, and the updated map is the method's
result.

### Behaviour worth noting

The model follows the code in each of these cases.

- **No key at or above the voltage.** `getVoltageTime` returns 0 there, not the time of the
  largest key (src/battery.cpp:242-244). `Estimate.VoltageTimeAbove` states this.
- **Which "fully-charged" time is used.** Walking backwards through a run of "fully-charged"
  records, the program overwrites `fullyCharged` at each one (src/battery.cpp:165-167). So it
  ends with the time of the *oldest* record of the run, not the newest.
  `Miner.SessionExample` shows this.
- **A log without a charge session.** Such a log leaves the map exactly as it was passed in;
  the map is not emptied. `main` passes an empty map (src/battery.cpp:285-286).
- **A "fully-charged" record only at the start of the log.** A log whose only "fully-charged"
  record is its oldest line stores nothing: the walk from the newest line back reaches that
  record last, so the "charging" records after it are passed over while seeking
  (`Miner.NoSessionExample`).
- **Merging into an empty map.** `updateVoltageTimesFromHistory` reads `voltTimes.begin()`
  without a check (src/battery.cpp:190-191), so the model requires a non-empty map. `main`
  calls it right after mining, even when mining found nothing (src/battery.cpp:286-287).
- **Negative durations.** C++11 division truncates and remainders keep the sign of the
  dividend, and `setw(2)` adds no padding to "-5", which is already two characters. A negative
  estimate therefore prints its signed fields (`Estimate.FormatDurationNegative`).
- **A truncated cache file.** The program reads a record it cannot fully obtain into an
  uninitialised struct. The model stops reading at the end of the file.

## Model

| member | source | states |
|---|---|---|
| Text.Trim | src/battery.cpp:104-108 | the loop's result is `Trimmed(str)`: the string without leading and trailing white space of the default set |
| Text.TrimmedSlice | src/battery.cpp:104-108 | the trimmed text is a contiguous slice of the input, starting after its leading white space; everything cut is white space; the result neither starts nor ends with white space |
| Text.TrimmedFixpoint | src/battery.cpp:104-108 | a string is unchanged by trimming if and only if it is empty or has no white space at either end |
| Text.TrimmedIdempotent | src/battery.cpp:104-108 | trimming twice gives the same as trimming once |
| Text.Split | src/battery.cpp:110-118 | the tokens are the trimmed fields between delimiters, in order; a final empty field is not produced |
| Text.PiecesJoin | src/battery.cpp:110-118 | no piece contains the delimiter, and joining the pieces with the delimiter gives back the line |
| Numbers.ParseTime | src/battery.cpp:120-128 | `stringToTime`: optional white space and sign, then the longest run of digits; 0 when no digit follows. What it gives on logger output is stated by `Numbers.ParseTimeOfDecimal` |
| Numbers.ParseVolts | src/battery.cpp:130-138 | `stringToVolts`: optional white space and sign, digits, optionally a point and more digits, stopping at the unit; 0 without a digit. What it gives on logger output is stated by `Numbers.ParseVoltsOfFixed2` |
| Numbers.ParseTimeOfDecimal | src/battery.cpp:120-128 | a timestamp as the logger writes it (decimal, `time(0)` at line 303) reads back as the same number |
| Numbers.ParseVoltsOfFixed2 | src/battery.cpp:130-138 | a voltage written with two fixed decimals and the unit, as at line 304 (e.g. "20.00V"), reads back as the voltage |
| Numbers.DecimalValue | src/battery.cpp:303 | the decimal digits written for a number denote that number |
| History.Insert | src/battery.cpp:179 | `voltTimes[v] = x`: replace the value of key `v`, or insert the pair at its place in key order. Its behaviour is stated by `History.InsertAscending` and `History.InsertToMap` |
| History.InsertAscending | src/battery.cpp:179 | `voltTimes[v] = x` keeps the keys strictly ascending; afterwards the entries are the new pair plus the old entries with other keys |
| History.InsertToMap | src/battery.cpp:179 | as a mapping, the update sets `v` to `x` and leaves every other key alone; the map grows by one exactly when `v` was new |
| History.ToMapAscending | src/battery.cpp:216-218 | an ordered sequence holds one entry per key of the mapping it denotes, each key mapped to its entry's value, so the entries written in iteration order are the map and their count is its size |
| History.Find | src/battery.cpp:225-228 | `find` gives the position of the key, or the end position exactly when the key is absent |
| History.LowerBound | src/battery.cpp:230 | `lower_bound` gives the first position whose key is not below the voltage; every earlier key is below it |
| Miner.KindOf | src/battery.cpp:159-172 | a record counts as fully charged exactly when its status equals "fully-charged", and as charging exactly when its status starts with "charging" |
| Miner.LogRowsAt | src/battery.cpp:153-156 | row `i` of the walk is line `i` cut at ',' into trimmed fields and read as time, voltage and status |
| Miner.ParseVoltageTimesFromLog | src/battery.cpp:140-187 | walking the log from its newest line back leaves the ordered map `Mined(log, voltTimes)`, described by positions in the log |
| Miner.VisitLine | src/battery.cpp:154-184 | one pass of the loop body changes mode, `fullyCharged` and the map exactly as one step of the walk does, including falling through modes on the same line |
| Miner.StoreReading | src/battery.cpp:172-179 | a "charging" record with non-zero time and voltage stores `fullyCharged - t` under its voltage; one with time 0 or voltage 0 changes nothing |
| Miner.LatestSessionFound | src/battery.cpp:150-185 | the session found starts at the newest "fully-charged" record, takes in the whole run of "fully-charged" records before it and then the charging block before that; there is no session exactly when no other record comes before a "fully-charged" record |
| Miner.MinedMap | src/battery.cpp:140-187 | with no fully-charged record, or no session, the map is unchanged; otherwise the map is the old map overridden by the readings of the session's charging block |
| Miner.EarliestReadingsAt | src/battery.cpp:171-179 | for a voltage read more than once, the chronologically earliest reading is what ends up stored |
| Miner.EarliestReadingsKeys | src/battery.cpp:171-179 | each voltage the block adds comes from a valid "charging" reading of the block |
| Miner.ScanIsMined | src/battery.cpp:150-185 | the mode-by-mode walk gives exactly the map described by positions |
| Miner.ShortLineIgnored | src/battery.cpp:155 | removing a line with fewer than four fields from the log does not change the mined map |
| Miner.NoSessionExample | src/battery.cpp:158-163 | a log whose only "fully-charged" record is its oldest line leaves the map empty |
| Miner.SessionExample | src/battery.cpp:164-179 | with two "fully-charged" records at 40 and 50 after readings at 20 (19.00 V) and 30 (20.00 V), the map is {19.00: 20, 20.00: 10}, timed against the oldest of the run |
| Cache.Taken | src/battery.cpp:197-206 | the merge reads records while fewer than `size` have been read and the file has more; it stops at the first record not below `minVolts` |
| Cache.UpdateVoltageTimesFromHistory | src/battery.cpp:189-209 | an unreadable cache file leaves the map unchanged; otherwise each leading record below the smallest key is stored with its time raised to that key's time; the map stays ordered |
| Cache.MergeMap | src/battery.cpp:189-209 | the original keys keep their values; every new key is below the smallest original key and maps to at least that key's time; the result is the old map overridden by the raised records |
| Cache.StoredBelow | src/battery.cpp:197-205 | the merged records are all placed in front of the original entries, each below the smallest original voltage and with a time at least the floor |
| Cache.StoredMap | src/battery.cpp:201-202 | storing the records with `max(timeDiff, maxDiff)` is the original mapping overridden by the raised records |
| Cache.WriteVoltageTimesToFile | src/battery.cpp:211-222 | the file holds the entry count followed by every entry in ascending key order; the count is the size of the mapping |
| Cache.WrittenThenTaken | src/battery.cpp:197-218 | reading back a file written from an ordered map gives exactly the saved entries below `minVolts`; all remaining entries are at or above it |
| Estimate.VoltageTime | src/battery.cpp:224-245 | `getVoltageTime`: exact key, else the key `lower_bound` finds or the one before it. Its behaviour is stated by `Estimate.VoltageTimeExact`, `VoltageTimeAbove`, `VoltageTimeBelow`, `VoltageTimeBetween`, `VoltageTimeNearest` and `VoltageTimeStored` |
| Estimate.VoltageTimeExact | src/battery.cpp:225-228 | a voltage with a stored time gets that time |
| Estimate.VoltageTimeAbove | src/battery.cpp:242-244 | when no key is at or above the voltage (in particular an empty history) the estimate is 0 |
| Estimate.VoltageTimeBelow | src/battery.cpp:232-234 | below the smallest key the estimate is the smallest key's time |
| Estimate.VoltageTimeBetween | src/battery.cpp:236-241 | between two neighbouring keys the estimate is the strictly closer key's time, the upper key's on a tie |
| Estimate.VoltageTimeNearest | src/battery.cpp:224-245 | whenever some key is at or above the voltage, the estimate is the time of a nearest key, the larger of two equally near keys |
| Estimate.VoltageTimeStored | src/battery.cpp:224-245 | the estimate is 0 or one of the stored times |
| Estimate.CppDiv | src/battery.cpp:250-251 | integer division truncates toward zero: `b * q` lies between 0 and `a` and is less than `b` away from `a`, for either sign of `a` |
| Estimate.CppMod | src/battery.cpp:249-251 | the remainder satisfies `a == b*q + r` with the truncated quotient; it lies in `[0, b)` for `a >= 0` and in `(-b, 0]` for `a < 0` |
| Estimate.Pad2 | src/battery.cpp:254-256 | `setw(2) << setfill('0')` for an `int`: its digits after a '-' when negative, padded with '0' to two characters. Stated by `Estimate.Pad2Digits` for fields from 0 to 59 |
| Estimate.FormatDuration | src/battery.cpp:248-257 | the text for an estimate of `e` seconds: hours, minutes and seconds by truncating division and remainder, each padded, joined by ':'. Stated by `Estimate.FormatDurationClock`, `FormatDurationExamples` and `FormatDurationNegative` |
| Estimate.DurationEstimate | src/battery.cpp:247-258 | `getDurationEstimate`: the looked-up time, formatted. Stated by `Estimate.DurationEstimateClock` |
| Estimate.Pad2Digits | src/battery.cpp:254-256 | a field from 0 to 59 prints as exactly two digits that read back as the field |
| Estimate.ClockArithmetic | src/battery.cpp:249-251 | for a non-negative estimate, the three fields recombine to the estimate modulo 60 hours |
| Estimate.FormatDurationClock | src/battery.cpp:247-258 | for a non-negative estimate the text is "HH:MM:SS" (eight characters, colons at 2 and 5, digits elsewhere); the pairs read back as hours mod 60, minutes and seconds of the estimate |
| Estimate.FormatDurationExamples | src/battery.cpp:247-258 | 3723 s prints as "01:02:03", 90 s as "00:01:30" and 0 s as "00:00:00" |
| Estimate.FormatDurationNegative | src/battery.cpp:249-256 | negative estimates print their signed fields: -5 s as "00:00:-5", -90 s as "00:-1:-30" |
| Estimate.DurationEstimateClock | src/battery.cpp:247-258 | when no stored time is negative, the printed estimate is always a well-formed clock text |

## Left out

- `numberToVoltage` and `getBatteryVoltagePercentage`: floating-point conversion of ADC readings, outside the history core.
- GPIO and ADC access (wiringPi, `getChargingStatus`, `getBatteryVoltage`) and `haltSystem`: hardware and process control.
- `main`'s loop, its delays, its low-voltage counter and the writing of log lines: the model takes the log as its lines and only describes the logger's number notation so the parsers can round-trip it.
- File I/O: the log is given as its lines, and an unreadable log is the same as an empty one. The cache file is given as `Option<CacheFile>`, where `None` means it could not be opened. The byte layout (`size_t` count, struct padding, endianness) is not modelled.
- Reading past the end of a truncated cache file: the program then stores an uninitialised record; the model stops at the end of the file.
- Numbers.ParseVolts: decimal notation only; `stod`'s exponents, hexadecimal floats, "inf" and "nan" are not modelled, and values are exact reals rather than rounded doubles.
- Numbers.ParseTime: the `out_of_range` exception `stol` throws on overflow is not modelled (integers are unbounded), nor `long` overflow of `fullyCharged - t`.
- The `cerr` diagnostics printed on invalid fields: output only.
- The 32-bit `uint` counter of the cache read loop: entry counts are unbounded.
- Estimate.VoltageTime: voltages are exact reals, while src/battery.cpp:237 compares the two distances in `double` arithmetic, so a near-tie (a voltage halfway between 19.99 and 20.00, say) may break the other way in the program.
- Estimate.FormatDuration: the `long` to `int` narrowing of the three fields is not modelled separately; each field is below 60 in absolute value, so it never changes a value.
