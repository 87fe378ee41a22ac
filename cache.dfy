/** The voltage-time cache file: `updateVoltageTimesFromHistory` (src/battery.cpp:189-209), which
    merges the low-voltage part of the previous history into a freshly mined map, and
    `writeVoltageTimesToFile` (src/battery.cpp:211-222), which saves the map for next time.

    The file holds an entry count followed by that many voltage/time records, in the map's
    iteration order. It is modelled by its decoded content: the count as written, and the records
    the file actually contains, which may be fewer than the count when the file is truncated. */
module Cache {
  import opened Wrappers
  import opened History

  datatype CacheFile = CacheFile(count: nat, entries: seq<Pair>)

  function Max(a: int, b: int): (m: int)
    ensures m >= a && m >= b && (m == a || m == b)
  {
    if a >= b then a else b
  }

  /** How many records the merge reads and stores: records are read while fewer than `count` have
      been read and the file has more, and the first record whose voltage is not below `minVolts`
      ends the merge. */
  function Taken(file: CacheFile, minVolts: real): (n: nat)
    ensures n <= file.count && n <= |file.entries|
    ensures forall k :: 0 <= k < n ==> file.entries[k].voltage < minVolts
    ensures n == file.count || n == |file.entries| || file.entries[n].voltage >= minVolts
  {
    TakenFrom(file, minVolts, 0)
  }

  function TakenFrom(file: CacheFile, minVolts: real, i: nat): (n: nat)
    requires i <= file.count && i <= |file.entries|
    requires forall k :: 0 <= k < i ==> file.entries[k].voltage < minVolts
    ensures i <= n <= file.count && n <= |file.entries|
    ensures forall k :: 0 <= k < n ==> file.entries[k].voltage < minVolts
    ensures n == file.count || n == |file.entries| || file.entries[n].voltage >= minVolts
    decreases file.count - i
  {
    if i == file.count || i == |file.entries| || file.entries[i].voltage >= minVolts then i
    else TakenFrom(file, minVolts, i + 1)
  }

  /** The map after storing `records` one after another, each with its time raised to `floor`. */
  function Stored(records: seq<Pair>, floor: int, vt: seq<Pair>): seq<Pair> {
    if records == [] then vt
    else
      var last := records[|records| - 1];
      Insert(Stored(records[..|records| - 1], floor, vt), last.voltage, Max(last.timeDiff, floor))
  }

  /** The records with their times raised to `floor`. */
  function Raised(records: seq<Pair>, floor: int): (r: seq<Pair>)
    ensures |r| == |records|
    ensures forall k :: 0 <= k < |r| ==>
      r[k].voltage == records[k].voltage && r[k].timeDiff == Max(records[k].timeDiff, floor)
  {
    seq(|records|, k requires 0 <= k < |records| => Pair(records[k].voltage, Max(records[k].timeDiff, floor)))
  }

  /** `updateVoltageTimesFromHistory`. `minVolts` and `maxDiff` come from the smallest key of the
      map, which the program dereferences without checking, so the map must not be empty. A cache
      file that cannot be opened (`None`) leaves the map as it is. The map is updated in place in
      the program; here it goes in as `voltTimes` and comes out as `result`. */
  method UpdateVoltageTimesFromHistory(cache: Option<CacheFile>, voltTimes: seq<Pair>)
    returns (result: seq<Pair>)
    requires Ascending(voltTimes) && |voltTimes| > 0
    ensures Ascending(result)
    ensures cache.None? ==> result == voltTimes
    ensures cache.Some? ==>
      var file := cache.value;
      result == Stored(file.entries[..Taken(file, voltTimes[0].voltage)], voltTimes[0].timeDiff, voltTimes)
  {
    var minVolts := voltTimes[0].voltage;
    var maxDiff := voltTimes[0].timeDiff;
    result := voltTimes;
    if cache.Some? {
      var file := cache.value;
      var i := 0;
      while i < file.count && i < |file.entries|
        invariant i <= Taken(file, minVolts)
        invariant result == Stored(file.entries[..i], maxDiff, voltTimes)
        invariant Ascending(result)
        decreases file.count - i
      {
        var vtp := file.entries[i];
        if vtp.voltage < minVolts {
          assert file.entries[..i + 1][..i] == file.entries[..i];
          InsertKeepsAscending(result, vtp.voltage, Max(vtp.timeDiff, maxDiff));
          result := Insert(result, vtp.voltage, Max(vtp.timeDiff, maxDiff));
        } else {
          break;
        }
        i := i + 1;
      }
      assert i == Taken(file, minVolts);
    }
  }

  /** `writeVoltageTimesToFile`: the size of the map, then one record per entry in key order. */
  method WriteVoltageTimesToFile(voltTimes: seq<Pair>) returns (file: CacheFile)
    requires Ascending(voltTimes)
    ensures file == CacheFile(|voltTimes|, voltTimes)
    ensures file.count == |ToMap(voltTimes)|
  {
    var records: seq<Pair> := [];
    for k := 0 to |voltTimes|
      invariant records == voltTimes[..k]
    {
      records := records + [Pair(voltTimes[k].voltage, voltTimes[k].timeDiff)];
    }
    assert voltTimes[..|voltTimes|] == voltTimes;
    file := CacheFile(|voltTimes|, records);
    ToMapAscending(voltTimes);
  }

  // ---------------------------------------------------------------------------------------------
  // Lemmas

  /** Storing records keeps the map ordered. */
  lemma {:induction false} StoredAscending(records: seq<Pair>, floor: int, vt: seq<Pair>)
    requires Ascending(vt)
    ensures Ascending(Stored(records, floor, vt))
  {
    if records != [] {
      var init, last := records[..|records| - 1], records[|records| - 1];
      StoredAscending(init, floor, vt);
      InsertKeepsAscending(Stored(init, floor, vt), last.voltage, Max(last.timeDiff, floor));
    }
  }

  /** Storing records overrides the map with the records' raised pairs, a later record winning. */
  lemma {:induction false} StoredMap(records: seq<Pair>, floor: int, vt: seq<Pair>)
    requires Ascending(vt)
    ensures ToMap(Stored(records, floor, vt)) == ToMap(vt) + ToMap(Raised(records, floor))
  {
    if records != [] {
      var init, last := records[..|records| - 1], records[|records| - 1];
      var t := Max(last.timeDiff, floor);
      StoredMap(init, floor, vt);
      StoredAscending(init, floor, vt);
      var before := Stored(init, floor, vt);
      assert Stored(records, floor, vt) == Insert(before, last.voltage, t);
      InsertToMap(before, last.voltage, t);
      var r, ri := Raised(records, floor), Raised(init, floor);
      assert r[..|r| - 1] == ri;
      assert ToMap(r) == ToMap(ri)[last.voltage := t];
      OverrideThenUpdate(ToMap(vt), ToMap(ri), last.voltage, t);
    }
  }

  lemma OverrideThenUpdate(m: map<real, int>, e: map<real, int>, k: real, x: int)
    ensures (m + e)[k := x] == m + e[k := x]
  {
  }

  /** `r` is `vt` with entries added in front of it only, each with a key below the smallest key
      of `vt` and a time of at least `floor`. */
  predicate AddedInFront(r: seq<Pair>, vt: seq<Pair>, floor: int)
    requires vt != []
  {
    && |vt| <= |r| && r[|r| - |vt|..] == vt
    && forall k :: 0 <= k < |r| - |vt| ==> r[k].voltage < vt[0].voltage && r[k].timeDiff >= floor
  }

  /** Records below the smallest key of the map go in front of it: the original entries stay, in
      place and unchanged, after the new ones, and every new entry has a key below `minVolts` and
      a time of at least `floor`. */
  lemma {:induction false} StoredBelow(records: seq<Pair>, floor: int, vt: seq<Pair>)
    requires Ascending(vt) && vt != []
    requires forall k :: 0 <= k < |records| ==> records[k].voltage < vt[0].voltage
    ensures AddedInFront(Stored(records, floor, vt), vt, floor)
  {
    var r := Stored(records, floor, vt);
    if records == [] {
      assert r[0..] == r;
    } else {
      var init, last := records[..|records| - 1], records[|records| - 1];
      StoredBelow(init, floor, vt);
      StoredAscending(init, floor, vt);
      var before := Stored(init, floor, vt);
      var lower := before[..|before| - |vt|];
      assert before == lower + vt;
      var t := Max(last.timeDiff, floor);
      InsertInFront(lower, vt, last.voltage, t, floor);
      assert r == Insert(lower + vt, last.voltage, t);
    }
  }

  /** One step of `StoredBelow`: a pair inserted below the smallest key of `vt` goes into the part
      in front of `vt`. */
  lemma InsertInFront(lower: seq<Pair>, vt: seq<Pair>, v: real, t: int, floor: int)
    requires Ascending(lower + vt) && Ascending(vt) && vt != []
    requires forall k :: 0 <= k < |lower| ==> lower[k].voltage < vt[0].voltage && lower[k].timeDiff >= floor
    requires v < vt[0].voltage && t >= floor
    ensures AddedInFront(Insert(lower + vt, v, t), vt, floor)
  {
    forall i | 0 <= i < |vt| ensures v < vt[i].voltage {
      if i > 0 {
        assert Key(vt, 0) < Key(vt, i);
      }
    }
    InsertBelow(lower, vt, v, t);
    InsertAscending(lower, v, t);
    var low := Insert(lower, v, t);
    var r := low + vt;
    assert r[|r| - |vt|..] == vt;
    forall k | 0 <= k < |low| ensures low[k].voltage < vt[0].voltage && low[k].timeDiff >= floor {
      assert low[k] in low;
      if low[k] != Pair(v, t) {
        var j :| 0 <= j < |lower| && lower[j] == low[k];
      }
    }
  }

  /** The merge as the program promises it: the keys of the original map keep their values, and
      each record read (the leading records below `minVolts`) adds its voltage with its time
      raised to the time of the smallest original key; nothing else changes. */
  lemma MergeMap(file: CacheFile, vt: seq<Pair>)
    requires Ascending(vt) && vt != []
    ensures var taken := file.entries[..Taken(file, vt[0].voltage)];
      var r := Stored(taken, vt[0].timeDiff, vt);
      && ToMap(r) == ToMap(vt) + ToMap(Raised(taken, vt[0].timeDiff))
      && |vt| <= |r| && r[|r| - |vt|..] == vt
      && (forall v :: v in ToMap(vt) ==> v in ToMap(r) && ToMap(r)[v] == ToMap(vt)[v])
      && (forall v :: v in ToMap(r) && v !in ToMap(vt) ==> v < vt[0].voltage && ToMap(r)[v] >= vt[0].timeDiff)
  {
    var minVolts, floor := vt[0].voltage, vt[0].timeDiff;
    var taken := file.entries[..Taken(file, minVolts)];
    var raised := Raised(taken, floor);
    StoredMap(taken, floor, vt);
    StoredBelow(taken, floor, vt);
    RaisedBelow(taken, floor, vt);
    var r := Stored(taken, floor, vt);
    forall v | v in ToMap(r) && v !in ToMap(vt)
      ensures v < minVolts && ToMap(r)[v] >= floor
    {
      RaisedValue(taken, floor, v);
    }
  }

  /** Raised records below the smallest key of `vt` share no key with it. */
  lemma RaisedBelow(records: seq<Pair>, floor: int, vt: seq<Pair>)
    requires Ascending(vt) && vt != []
    requires forall k :: 0 <= k < |records| ==> records[k].voltage < vt[0].voltage
    ensures forall v :: v in ToMap(vt) ==> v !in ToMap(Raised(records, floor))
  {
    var raised := Raised(records, floor);
    ToMapKeys(vt);
    ToMapKeys(raised);
    forall v | v in ToMap(vt) ensures v !in ToMap(raised) {
      var p :| p in vt && p.voltage == v;
      var i :| 0 <= i < |vt| && vt[i] == p;
      if i > 0 {
        assert Key(vt, 0) < Key(vt, i);
      }
      forall q | q in raised ensures q.voltage != v {
        var j :| 0 <= j < |raised| && raised[j] == q;
      }
    }
  }

  /** The value a raised sequence maps a key to is one of the raised times. */
  lemma {:induction false} RaisedValue(records: seq<Pair>, floor: int, v: real)
    requires v in ToMap(Raised(records, floor))
    ensures exists k :: 0 <= k < |records| && records[k].voltage == v
    ensures ToMap(Raised(records, floor))[v] >= floor
  {
    var r := Raised(records, floor);
    var init := records[..|records| - 1];
    assert r[..|r| - 1] == Raised(init, floor);
    if r[|r| - 1].voltage != v {
      RaisedValue(init, floor, v);
    }
  }

  /** The records below `minVolts`, in file order. */
  function Below(records: seq<Pair>, minVolts: real): seq<Pair> {
    if records == [] then []
    else if records[0].voltage < minVolts then [records[0]] + Below(records[1..], minVolts)
    else []
  }

  /** Reading back what the writer wrote: the file of an ordered map holds its entries in key
      order, so stopping at the first record not below `minVolts` loses no record below it, and
      the merge reads exactly the saved entries below `minVolts`. */
  lemma WrittenThenTaken(saved: seq<Pair>, minVolts: real)
    requires Ascending(saved)
    ensures var file := CacheFile(|saved|, saved);
      var n := Taken(file, minVolts);
      && saved[..n] == Below(saved, minVolts)
      && (forall k :: n <= k < |saved| ==> saved[k].voltage >= minVolts)
  {
    var file := CacheFile(|saved|, saved);
    var n := Taken(file, minVolts);
    forall k | n <= k < |saved| ensures saved[k].voltage >= minVolts {
      if k > n {
        assert Key(saved, n) < Key(saved, k);
      }
    }
    BelowPrefix(saved, minVolts, n);
  }

  lemma {:induction false} BelowPrefix(records: seq<Pair>, minVolts: real, n: nat)
    requires n <= |records|
    requires forall k :: 0 <= k < n ==> records[k].voltage < minVolts
    requires n == |records| || records[n].voltage >= minVolts
    ensures records[..n] == Below(records, minVolts)
  {
    if n > 0 {
      BelowPrefix(records[1..], minVolts, n - 1);
      assert records[..n] == [records[0]] + records[1..][..n - 1];
    }
  }
}
