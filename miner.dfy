/** Mining charge durations from the status log: `parseVoltageTimesFromLog`
    (src/battery.cpp:140-187).

    Each log line holds the time, the voltage, the charge percentage and the status, and while
    charging also the cell map and possibly an estimate (the logger writes them at
    src/battery.cpp:303-315); the walk reads fields 0, 1 and 3.
    The newest charge session is found by walking the log from its newest line back: skip to the
    newest "fully-charged" record, remember the time of the oldest record of that run of
    "fully-charged" records, then, for each older "charging" record, store under its voltage how
    long the charge took from there to fully charged, until a record that is not "charging". */
module Miner {
  import opened Wrappers
  import opened Text
  import opened Numbers
  import opened History

  const FullStatus: string := "fully-charged"
  const ChargingPrefix: string := "charging"

  /** What the walk distinguishes in the status field of a record. */
  datatype Kind = FullyCharged | Charging | Other

  /** `status.compare("fully-charged") == 0` and `status.rfind("charging", 0) == 0`. */
  function KindOf(status: string): (k: Kind)
    ensures k == FullyCharged <==> status == FullStatus
    ensures k == Charging <==> StartsWith(status, ChargingPrefix)
  {
    if status == FullStatus then
      assert status[0] != ChargingPrefix[0];
      FullyCharged
    else if StartsWith(status, ChargingPrefix) then Charging
    else Other
  }

  /** A log line as the walk sees it: fewer than four fields, or a record with the time of its
      first field, the voltage of its second and the kind of its fourth. */
  datatype Row = Short | Record(time: int, volts: real, kind: Kind)

  function RowOf(fields: seq<string>): Row {
    if |fields| < 4 then Short
    else Record(ParseTime(fields[0]), ParseVolts(fields[1]), KindOf(fields[3]))
  }

  /** The log as the walk sees it: each line cut at ',' into trimmed fields and read as a row. */
  function LogRows(lines: seq<string>): (log: seq<Row>)
    ensures |log| == |lines|
  {
    if lines == [] then []
    else LogRows(lines[..|lines| - 1]) + [RowOf(Tokens(lines[|lines| - 1], ','))]
  }

  /** Row `i` of the log is line `i` read as a row. */
  lemma {:induction false} LogRowsAt(lines: seq<string>, i: nat)
    requires i < |lines|
    ensures LogRows(lines)[i] == RowOf(Tokens(lines[i], ','))
  {
    if i < |lines| - 1 {
      LogRowsAt(lines[..|lines| - 1], i);
    }
  }

  predicate IsFull(row: Row) {
    row.Record? && row.kind == FullyCharged
  }

  /** A record that ends a run of "fully-charged" records when walking back. */
  predicate EndsRun(row: Row) {
    row.Record? && row.kind != FullyCharged
  }

  /** A record that ends the charging block when walking back. */
  predicate EndsBlock(row: Row) {
    row.Record? && row.kind != Charging
  }

  /** A "charging" record whose time and voltage both read as non-zero: one observation. */
  predicate IsReading(row: Row) {
    row.Record? && row.kind == Charging && row.time != 0 && row.volts != 0.0
  }

  // ---------------------------------------------------------------------------------------------
  // The walk as a state machine

  /** The `mode` variable: 0, 1, 2 and 3 of the program. */
  datatype Mode = SeekEnd | SkipRepeats | Collect | Stop

  /** The state of the walk: the mode, the `fullyCharged` time and the map. */
  datatype Scan = Scan(mode: Mode, fullyCharged: int, voltTimes: seq<Pair>)

  /** What one line does to the state, including the fall-through from one mode to the next on
      the same line. */
  function Step(s: Scan, line: Row): Scan
  {
    if line.Short? || s.mode == Stop then s
    else if s.mode == SeekEnd then
      if IsFull(line) then AfterFull(s.(mode := SkipRepeats), line) else s
    else if s.mode == SkipRepeats then AfterFull(s, line)
    else Collecting(s, line)
  }

  /** Mode 1 on a record: another "fully-charged" record moves `fullyCharged` back to its time;
      any other record ends the run and is handled by mode 2. */
  function AfterFull(s: Scan, line: Row): Scan
    requires line.Record? && s.mode == SkipRepeats
  {
    if IsFull(line) then s.(fullyCharged := line.time)
    else Collecting(s.(mode := Collect), line)
  }

  /** Mode 2 on a record: a "charging" reading stores `fullyCharged - t` under its voltage; a
      "charging" record with time or voltage 0 is skipped; any other record stops the walk. */
  function Collecting(s: Scan, line: Row): Scan
    requires line.Record?
  {
    if line.kind != Charging then s.(mode := Stop)
    else if IsReading(line) then
      s.(voltTimes := Insert(s.voltTimes, line.volts, s.fullyCharged - line.time))
    else s
  }

  /** The state after walking back from line `i - 1` to the oldest line, or up to a stop. */
  function ScanDown(log: seq<Row>, i: nat, s: Scan): Scan
    requires i <= |log|
    decreases i
  {
    if i == 0 || s.mode == Stop then s else ScanDown(log, i - 1, Step(s, log[i - 1]))
  }

  /** `parseVoltageTimesFromLog` on the lines of the log file, oldest first. The map is updated in
      place in the program; here it goes in as `voltTimes` and comes out as `result`. A log file
      that cannot be opened leaves the map as it is, as an empty log does. */
  method ParseVoltageTimesFromLog(lines: seq<string>, voltTimes: seq<Pair>) returns (result: seq<Pair>)
    requires Ascending(voltTimes)
    ensures Ascending(result)
    ensures result == Mined(LogRows(lines), voltTimes)
  {
    ghost var log := LogRows(lines);
    var mode := SeekEnd;
    var fullyCharged := 0;
    result := voltTimes;
    var i := |lines|;
    while i > 0
      invariant 0 <= i <= |lines| && Ascending(result) && mode != Stop
      invariant ScanDown(log, i, Scan(mode, fullyCharged, result))
             == ScanDown(log, |log|, Scan(SeekEnd, 0, voltTimes))
    {
      ghost var before := Scan(mode, fullyCharged, result);
      i := i - 1;
      assert ScanDown(log, i + 1, before) == ScanDown(log, i, Step(before, log[i]));
      LogRowsAt(lines, i);
      mode, fullyCharged, result := VisitLine(lines[i], mode, fullyCharged, result);
      if mode == Stop {
        break;
      }
    }
    assert ScanDown(log, i, Scan(mode, fullyCharged, result)) == Scan(mode, fullyCharged, result);
    ScanIsMined(log, voltTimes);
  }

  /** The body of the loop of `parseVoltageTimesFromLog` for one line: a `continue` of the
      program returns early here, and a `break` returns mode `Stop`. */
  method VisitLine(line: string, mode: Mode, fullyCharged: int, voltTimes: seq<Pair>)
    returns (mode': Mode, fullyCharged': int, result: seq<Pair>)
    requires Ascending(voltTimes) && mode != Stop
    ensures Ascending(result)
    ensures Scan(mode', fullyCharged', result)
         == Step(Scan(mode, fullyCharged, voltTimes), RowOf(Tokens(line, ',')))
  {
    mode', fullyCharged', result := mode, fullyCharged, voltTimes;
    var tokens := Split(line, ',');
    if |tokens| < 4 {
      return;
    }
    var status := tokens[3];
    ghost var row := RowOf(tokens);
    assert row.Record? && (row.kind == FullyCharged <==> status == FullStatus)
      && (row.kind == Charging <==> StartsWith(status, ChargingPrefix));
    if mode' == SeekEnd {
      if status != FullStatus {
        return;
      }
      mode' := SkipRepeats;
    }
    if mode' == SkipRepeats {
      if status == FullStatus {
        fullyCharged' := ParseTime(tokens[0]);
        return;
      }
      mode' := Collect;
    }
    if mode' == Collect {
      ghost var collecting := Collecting(Scan(Collect, fullyCharged', result), row);
      if StartsWith(status, ChargingPrefix) {
        result := StoreReading(tokens, fullyCharged', result);
      } else {
        mode' := Stop;
      }
      assert Scan(mode', fullyCharged', result) == collecting;
    }
  }

  /** The "charging" case of mode 2: a line whose time or voltage reads as 0 is skipped, and any
      other stores `fullyCharged - t` under its voltage. */
  method StoreReading(tokens: seq<string>, fullyCharged: int, voltTimes: seq<Pair>) returns (result: seq<Pair>)
    requires |tokens| >= 4 && Ascending(voltTimes) && StartsWith(tokens[3], ChargingPrefix)
    ensures Ascending(result)
    ensures Scan(Collect, fullyCharged, result)
         == Collecting(Scan(Collect, fullyCharged, voltTimes), RowOf(tokens))
  {
    result := voltTimes;
    ghost var row := RowOf(tokens);
    var t := ParseTime(tokens[0]);
    assert t == row.time;
    if t == 0 {
      return;
    }
    var v := ParseVolts(tokens[1]);
    assert v == row.volts && IsReading(row) == (v != 0.0);
    if v == 0.0 {
      return;
    }
    InsertKeepsAscending(result, v, fullyCharged - t);
    result := Insert(result, v, fullyCharged - t);
  }

  // ---------------------------------------------------------------------------------------------
  // The same result described by positions in the log

  /** The position of the newest line before `hi` satisfying `p`, or -1 when there is none. */
  function LastIndex(log: seq<Row>, hi: nat, p: Row -> bool): (k: int)
    requires hi <= |log|
    ensures -1 <= k < hi
    ensures k >= 0 ==> p(log[k])
    ensures forall j :: k < j < hi ==> !p(log[j])
    decreases hi
  {
    if hi == 0 then -1 else if p(log[hi - 1]) then hi - 1 else LastIndex(log, hi - 1, p)
  }

  /** The position of the oldest line in `[lo, hi)` satisfying `p`, or `hi` when there is none. */
  function FirstIndex(log: seq<Row>, lo: nat, hi: nat, p: Row -> bool): (k: nat)
    requires lo <= hi <= |log|
    ensures lo <= k <= hi
    ensures k < hi ==> p(log[k])
    ensures forall j :: lo <= j < k ==> !p(log[j])
    decreases hi - lo
  {
    if lo == hi then hi else if p(log[lo]) then lo else FirstIndex(log, lo + 1, hi, p)
  }

  /** Positions describing the newest charge session of a log: the charging block is
      `[start, end)`, the record at `end - 1` ends the run of "fully-charged" records that starts
      at `runStart` and whose newest record is at `newestFull`. */
  datatype Session = Session(start: nat, end: nat, runStart: nat, newestFull: nat)

  predicate IsLatestSession(log: seq<Row>, s: Session) {
    && 0 < s.end
    && s.start <= s.end <= s.runStart <= s.newestFull < |log|
    // the newest "fully-charged" record of the log
    && IsFull(log[s.newestFull])
    && (forall k :: s.newestFull < k < |log| ==> !IsFull(log[k]))
    // the run of "fully-charged" records it belongs to, and the oldest record of the run
    && (forall k :: s.runStart <= k <= s.newestFull ==> !EndsRun(log[k]))
    && IsFull(log[s.runStart])
    && (forall k :: s.end <= k < s.runStart ==> log[k].Short?)
    // the record before the run
    && EndsRun(log[s.end - 1])
    // the charging block: older records up to one that is not "charging", or the oldest line
    && (forall k :: s.start <= k < s.end ==> !EndsBlock(log[k]))
    && (s.start == 0 || EndsBlock(log[s.start - 1]))
  }

  /** The newest charge session, if the log has one. */
  function LatestSession(log: seq<Row>): (r: Option<Session>)
    ensures r.Some? ==> r.value.start <= r.value.end <= r.value.runStart < |log|
  {
    var f := LastIndex(log, |log|, IsFull);
    if f < 0 then None
    else
      var b := LastIndex(log, f, EndsRun);
      if b < 0 then None
      else
        var c := LastIndex(log, b + 1, EndsBlock);
        Some(Session(c + 1, b + 1, FirstIndex(log, b + 1, f + 1, IsFull), f))
  }

  /** The session found is the one described by `IsLatestSession`, and there is none exactly when
      no record other than "fully-charged" precedes a "fully-charged" record. */
  lemma LatestSessionFound(log: seq<Row>)
    ensures LatestSession(log).Some? ==> IsLatestSession(log, LatestSession(log).value)
    ensures LatestSession(log).None? <==>
      forall j, k :: 0 <= j < k < |log| && EndsRun(log[j]) ==> !IsFull(log[k])
  {
  }

  /** The map after storing the readings of lines `[lo, hi)`, newest first, each as `fc - t`. */
  function Collected(log: seq<Row>, lo: nat, hi: nat, fc: int, vt: seq<Pair>): seq<Pair>
    requires lo <= hi <= |log|
    decreases hi - lo
  {
    if lo == hi then vt
    else
      var line := log[hi - 1];
      var next := if IsReading(line) then Insert(vt, line.volts, fc - line.time) else vt;
      Collected(log, lo, hi - 1, fc, next)
  }

  /** The readings of lines `[lo, hi)` as a mapping, where the oldest reading of a voltage wins. */
  function EarliestReadings(log: seq<Row>, lo: nat, hi: nat, fc: int): map<real, int>
    requires lo <= hi <= |log|
    decreases hi - lo
  {
    if lo == hi then map[]
    else
      var m := EarliestReadings(log, lo + 1, hi, fc);
      if IsReading(log[lo]) then m[log[lo].volts := fc - log[lo].time] else m
  }

  /** The map `parseVoltageTimesFromLog` leaves: unchanged when the log has no charge session,
      otherwise with the readings of the session's charging block folded in, newest first, each
      as the time from it to the oldest record of the run of "fully-charged" records. */
  function Mined(log: seq<Row>, vt: seq<Pair>): (r: seq<Pair>)
    requires Ascending(vt)
    ensures Ascending(r)
  {
    match LatestSession(log)
    case None => vt
    case Some(s) =>
      CollectedAscending(log, s.start, s.end, log[s.runStart].time, vt);
      Collected(log, s.start, s.end, log[s.runStart].time, vt)
  }

  /** What mining does to the map: with no fully-charged record, or no charge session, nothing;
      otherwise every reading of the charging block is stored, the oldest reading of a voltage
      winning, and every other key keeps its value. */
  lemma MinedMap(log: seq<Row>, vt: seq<Pair>)
    requires Ascending(vt)
    ensures (forall k :: 0 <= k < |log| ==> !IsFull(log[k])) ==> Mined(log, vt) == vt
    ensures LatestSession(log).None? ==> Mined(log, vt) == vt
    ensures LatestSession(log).Some? ==>
      var s := LatestSession(log).value;
      ToMap(Mined(log, vt)) == ToMap(vt) + EarliestReadings(log, s.start, s.end, log[s.runStart].time)
  {
    match LatestSession(log)
    case None =>
    case Some(s) =>
      CollectedMap(log, s.start, s.end, log[s.runStart].time, vt);
  }

  // ---------------------------------------------------------------------------------------------
  // Lemmas

  /** Folding readings into a map is overriding the map with the earliest readings. */
  lemma {:induction false} CollectedMap(log: seq<Row>, lo: nat, hi: nat, fc: int, vt: seq<Pair>)
    requires lo <= hi <= |log| && Ascending(vt)
    ensures ToMap(Collected(log, lo, hi, fc, vt)) == ToMap(vt) + EarliestReadings(log, lo, hi, fc)
    decreases hi - lo
  {
    if lo < hi {
      var line := log[hi - 1];
      EarliestReadingsLast(log, lo, hi, fc);
      if IsReading(line) {
        var next := Insert(vt, line.volts, fc - line.time);
        InsertKeepsAscending(vt, line.volts, fc - line.time);
        CollectedMap(log, lo, hi - 1, fc, next);
        ReadingStep(log, lo, hi, fc, vt);
      } else {
        CollectedMap(log, lo, hi - 1, fc, vt);
        assert map[] + EarliestReadings(log, lo, hi - 1, fc) == EarliestReadings(log, lo, hi - 1, fc);
      }
    }
  }

  /** The inductive step of `CollectedMap` for a reading. */
  lemma ReadingStep(log: seq<Row>, lo: nat, hi: nat, fc: int, vt: seq<Pair>)
    requires lo < hi <= |log| && Ascending(vt) && IsReading(log[hi - 1])
    requires var next := Insert(vt, log[hi - 1].volts, fc - log[hi - 1].time);
      ToMap(Collected(log, lo, hi - 1, fc, next)) == ToMap(next) + EarliestReadings(log, lo, hi - 1, fc)
    requires EarliestReadings(log, lo, hi, fc) ==
      map[log[hi - 1].volts := fc - log[hi - 1].time] + EarliestReadings(log, lo, hi - 1, fc)
    ensures ToMap(Collected(log, lo, hi, fc, vt)) == ToMap(vt) + EarliestReadings(log, lo, hi, fc)
  {
    var line := log[hi - 1];
    InsertToMap(vt, line.volts, fc - line.time);
    OverrideUpdate(ToMap(vt), line.volts, fc - line.time, EarliestReadings(log, lo, hi - 1, fc));
  }

  lemma OverrideUpdate(m: map<real, int>, k: real, x: int, e: map<real, int>)
    ensures m[k := x] + e == m + (map[k := x] + e)
  {
  }

  /** Folding readings into an ordered map keeps it ordered. */
  lemma {:induction false} CollectedAscending(log: seq<Row>, lo: nat, hi: nat, fc: int, vt: seq<Pair>)
    requires lo <= hi <= |log| && Ascending(vt)
    ensures Ascending(Collected(log, lo, hi, fc, vt))
    decreases hi - lo
  {
    if lo < hi {
      var line := log[hi - 1];
      if IsReading(line) {
        InsertKeepsAscending(vt, line.volts, fc - line.time);
      }
      var next := if IsReading(line) then Insert(vt, line.volts, fc - line.time) else vt;
      CollectedAscending(log, lo, hi - 1, fc, next);
    }
  }

  /** The newest line of a range is overridden by every older reading of its voltage. */
  lemma {:induction false} EarliestReadingsLast(log: seq<Row>, lo: nat, hi: nat, fc: int)
    requires lo < hi <= |log|
    ensures EarliestReadings(log, lo, hi, fc) ==
      (if IsReading(log[hi - 1]) then map[log[hi - 1].volts := fc - log[hi - 1].time]
       else map[]) + EarliestReadings(log, lo, hi - 1, fc)
    decreases hi - lo
  {
    if lo + 1 < hi {
      EarliestReadingsLast(log, lo + 1, hi, fc);
    }
  }

  /** Duplicate voltages keep the chronologically earliest reading: the oldest reading of a
      voltage in a range is what the range maps that voltage to. */
  lemma {:induction false} EarliestReadingsAt(log: seq<Row>, lo: nat, hi: nat, fc: int, k: nat)
    requires lo <= k < hi <= |log|
    requires IsReading(log[k])
    requires forall j :: lo <= j < k && IsReading(log[j]) ==> log[j].volts != log[k].volts
    ensures log[k].volts in EarliestReadings(log, lo, hi, fc)
    ensures EarliestReadings(log, lo, hi, fc)[log[k].volts] == fc - log[k].time
    decreases k - lo
  {
    if lo < k {
      EarliestReadingsAt(log, lo + 1, hi, fc, k);
    }
  }

  /** Only readings of the range contribute keys. */
  lemma {:induction false} EarliestReadingsKeys(log: seq<Row>, lo: nat, hi: nat, fc: int, v: real)
    requires lo <= hi <= |log|
    requires v in EarliestReadings(log, lo, hi, fc)
    ensures exists k :: lo <= k < hi && IsReading(log[k]) && log[k].volts == v
    decreases hi - lo
  {
    if !(IsReading(log[lo]) && log[lo].volts == v) {
      EarliestReadingsKeys(log, lo + 1, hi, fc, v);
    }
  }

  /** Mode 0 passes over lines that are not "fully-charged" records. */
  lemma {:induction false} SeekPhase(log: seq<Row>, lo: nat, hi: nat, s: Scan)
    requires lo <= hi <= |log| && s.mode == SeekEnd
    requires forall k :: lo <= k < hi ==> !IsFull(log[k])
    ensures ScanDown(log, hi, s) == ScanDown(log, lo, s)
    decreases hi
  {
    if lo < hi {
      assert Step(s, log[hi - 1]) == s;
      SeekPhase(log, lo, hi - 1, s);
    }
  }

  /** Mode 1 over a run of "fully-charged" records (and lines that are not records) only moves
      `fullyCharged` to the time of the oldest record of the run. */
  lemma {:induction false} SkipPhase(log: seq<Row>, lo: nat, hi: nat, s: Scan)
    requires lo <= hi <= |log| && s.mode == SkipRepeats
    requires forall k :: lo <= k < hi ==> !EndsRun(log[k])
    ensures var k := FirstIndex(log, lo, hi, IsFull);
      ScanDown(log, hi, s) ==
      ScanDown(log, lo, s.(fullyCharged := if k < hi then log[k].time else s.fullyCharged))
    decreases hi
  {
    if lo < hi {
      var line := log[hi - 1];
      var next := Step(s, line);
      assert next == if IsFull(line) then s.(fullyCharged := line.time) else s;
      SkipPhase(log, lo, hi - 1, next);
      var k, k' := FirstIndex(log, lo, hi, IsFull), FirstIndex(log, lo, hi - 1, IsFull);
      if k' < hi - 1 {
        assert k == k';
      } else {
        assert k == if IsFull(line) then hi - 1 else hi;
      }
    }
  }

  /** Mode 2 over a block of "charging" records (and lines that are not records) folds their
      readings into the map. */
  lemma {:induction false} CollectPhase(log: seq<Row>, lo: nat, hi: nat, s: Scan)
    requires lo <= hi <= |log| && s.mode == Collect
    requires forall k :: lo <= k < hi ==> !EndsBlock(log[k])
    ensures ScanDown(log, hi, s) ==
      ScanDown(log, lo, s.(voltTimes := Collected(log, lo, hi, s.fullyCharged, s.voltTimes)))
    decreases hi
  {
    if lo < hi {
      var line := log[hi - 1];
      var next := if IsReading(line)
        then Insert(s.voltTimes, line.volts, s.fullyCharged - line.time)
        else s.voltTimes;
      assert Step(s, line) == s.(voltTimes := next);
      CollectPhase(log, lo, hi - 1, s.(voltTimes := next));
    }
  }

  /** The state machine computes the positional description. */
  lemma ScanIsMined(log: seq<Row>, vt: seq<Pair>)
    requires Ascending(vt)
    ensures ScanDown(log, |log|, Scan(SeekEnd, 0, vt)).voltTimes == Mined(log, vt)
  {
    var init := Scan(SeekEnd, 0, vt);
    var f := LastIndex(log, |log|, IsFull);
    if f < 0 {
      SeekPhase(log, 0, |log|, init);
      assert ScanDown(log, 0, init) == init;
      assert LatestSession(log) == None;
    } else {
      SeekPhase(log, f + 1, |log|, init);
      var s1 := Scan(SkipRepeats, log[f].time, vt);
      assert Step(init, log[f]) == s1;
      assert ScanDown(log, f + 1, init) == ScanDown(log, f, s1);
      RunScan(log, f, vt);
    }
  }

  /** From the newest "fully-charged" record back. */
  lemma RunScan(log: seq<Row>, f: nat, vt: seq<Pair>)
    requires Ascending(vt) && f == LastIndex(log, |log|, IsFull)
    ensures ScanDown(log, f, Scan(SkipRepeats, log[f].time, vt)).voltTimes == Mined(log, vt)
  {
    var s1 := Scan(SkipRepeats, log[f].time, vt);
    var b := LastIndex(log, f, EndsRun);
    var runStart := FirstIndex(log, b + 1, f + 1, IsFull);
    SessionAt(log, f, b);
    SkipPhase(log, b + 1, f, s1);
    var k := FirstIndex(log, b + 1, f, IsFull);
    if k < f {
      assert runStart == k;
    } else {
      assert runStart == f;
    }
    var s2 := s1.(fullyCharged := log[runStart].time);
    assert ScanDown(log, f, s1) == ScanDown(log, b + 1, s2);
    if b < 0 {
      assert ScanDown(log, 0, s2) == s2;
    } else {
      var s3 := s2.(mode := Collect);
      assert Step(s2, log[b]) == Step(s3, log[b]);
      assert ScanDown(log, b + 1, s2) == ScanDown(log, b + 1, s3);
      BlockScan(log, b, s3);
    }
  }

  /** The session `LatestSession` finds, given the newest "fully-charged" record `f` and the
      newest record `b` before it that is not "fully-charged". */
  lemma SessionAt(log: seq<Row>, f: nat, b: int)
    requires f == LastIndex(log, |log|, IsFull) && b == LastIndex(log, f, EndsRun)
    ensures b < 0 ==> LatestSession(log) == None
    ensures b >= 0 ==> (LatestSession(log) ==
      Some(Session(LastIndex(log, b + 1, EndsBlock) + 1, b + 1, FirstIndex(log, b + 1, f + 1, IsFull), f)))
  {
  }

  /** From the record that ends the run of "fully-charged" records back. */
  lemma BlockScan(log: seq<Row>, b: nat, s: Scan)
    requires b < |log| && s.mode == Collect
    ensures var c := LastIndex(log, b + 1, EndsBlock);
      ScanDown(log, b + 1, s).voltTimes == Collected(log, c + 1, b + 1, s.fullyCharged, s.voltTimes)
  {
    var c := LastIndex(log, b + 1, EndsBlock);
    CollectPhase(log, c + 1, b + 1, s);
    var s4 := s.(voltTimes := Collected(log, c + 1, b + 1, s.fullyCharged, s.voltTimes));
    if c >= 0 {
      assert Step(s4, log[c]) == s4.(mode := Stop);
    }
    assert ScanDown(log, c + 1, s4).voltTimes == s4.voltTimes;
  }

  /** A line with fewer than four fields makes no difference: removing it from the log leaves
      the mined map as it is. */
  lemma ShortLineIgnored(log: seq<Row>, i: nat, vt: seq<Pair>)
    requires i < |log| && log[i].Short? && Ascending(vt)
    ensures Mined(log[..i] + log[i + 1..], vt) == Mined(log, vt)
  {
    var log' := log[..i] + log[i + 1..];
    var init := Scan(SeekEnd, 0, vt);
    ScanWithout(log, i, |log|, init);
    ScanIsMined(log, vt);
    ScanIsMined(log', vt);
  }

  lemma {:induction false} ScanWithout(log: seq<Row>, i: nat, n: nat, s: Scan)
    requires i < n <= |log| && log[i].Short?
    ensures ScanDown(log, n, s) == ScanDown(log[..i] + log[i + 1..], n - 1, s)
    decreases n
  {
    var log' := log[..i] + log[i + 1..];
    if s.mode != Stop {
      if n == i + 1 {
        assert Step(s, log[i]) == s;
        ScanPrefix(log, log', i, s);
      } else {
        assert log'[n - 2] == log[n - 1];
        ScanWithout(log, i, n - 1, Step(s, log[n - 1]));
      }
    }
  }

  /** The walk from line `n - 1` back sees only the first `n` lines. */
  lemma {:induction false} ScanPrefix(log: seq<Row>, log': seq<Row>, n: nat, s: Scan)
    requires n <= |log| && n <= |log'| && log[..n] == log'[..n]
    ensures ScanDown(log, n, s) == ScanDown(log', n, s)
    decreases n
  {
    if n > 0 && s.mode != Stop {
      assert log[n - 1] == log[..n][n - 1] == log'[n - 1];
      assert log[..n - 1] == log[..n][..n - 1];
      assert log'[..n - 1] == log'[..n][..n - 1];
      ScanPrefix(log, log', n - 1, Step(s, log[n - 1]));
    }
  }

  /** A log whose only "fully-charged" record is its oldest line has no charge session: walking
      back, the newer "charging" records are passed over while seeking, and the map stays as it
      is. */
  lemma NoSessionExample()
    ensures Mined([Record(10, 20.5, FullyCharged), Record(20, 19.0, Charging),
                   Record(30, 20.0, Charging), Record(40, 18.0, Other)], []) == []
  {
    var log := [Record(10, 20.5, FullyCharged), Record(20, 19.0, Charging),
                Record(30, 20.0, Charging), Record(40, 18.0, Other)];
    assert LastIndex(log, 4, IsFull) == 0;
    assert LastIndex(log, 0, EndsRun) == -1;
  }

  /** A charge session: both readings are timed against the oldest of the two "fully-charged"
      records (t = 40), and the "not-charging" record before them ends the block. */
  lemma SessionExample()
    ensures Mined([Record(10, 18.0, Other), Record(20, 19.0, Charging), Record(30, 20.0, Charging),
                   Record(40, 20.5, FullyCharged), Record(50, 20.5, FullyCharged)], [])
         == [Pair(19.0, 20), Pair(20.0, 10)]
  {
    var log := [Record(10, 18.0, Other), Record(20, 19.0, Charging), Record(30, 20.0, Charging),
                Record(40, 20.5, FullyCharged), Record(50, 20.5, FullyCharged)];
    assert LastIndex(log, 5, IsFull) == 4;
    assert LastIndex(log, 4, EndsRun) == 2;
    assert LastIndex(log, 3, EndsBlock) == 0;
    assert FirstIndex(log, 3, 5, IsFull) == 3;
    assert LatestSession(log) == Some(Session(1, 3, 3, 4));
    assert Insert([], 20.0, 10) == [Pair(20.0, 10)];
    assert Insert([Pair(20.0, 10)], 19.0, 20) == [Pair(19.0, 20), Pair(20.0, 10)];
  }
}
