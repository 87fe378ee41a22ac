/** The voltage history: the ordered map from voltage to the seconds a charge took from that
    voltage to "fully charged" (a `std::map<double, long>` in the program).

    The map is modelled as the sequence of its entries in iteration order, so that `begin()`,
    `lower_bound`, `prev` and ordered iteration have direct counterparts; `Ascending` is the
    ordered-map invariant and `ToMap` is the mapping such a sequence denotes. Voltages are
    `real`s (the rounding of `double` is not modelled) and times are unbounded integers. */
module History {

  /** One voltage/time observation; also the record layout of the cache file. */
  datatype Pair = Pair(voltage: real, timeDiff: int)

  /** The key at position `i`. */
  function Key(vt: seq<Pair>, i: nat): real
    requires i < |vt|
  {
    vt[i].voltage
  }

  /** The ordered-map invariant: keys strictly ascending, hence unique. */
  predicate Ascending(vt: seq<Pair>) {
    forall i, j :: 0 <= i < j < |vt| ==> Key(vt, i) < Key(vt, j)
  }

  /** The mapping a sequence of pairs denotes when the pairs are stored one after another into a
      map: a later pair overrides an earlier one with the same voltage. */
  function ToMap(ps: seq<Pair>): map<real, int> {
    if ps == [] then map[]
    else ToMap(ps[..|ps| - 1])[ps[|ps| - 1].voltage := ps[|ps| - 1].timeDiff]
  }

  /** The set of voltages occurring in a sequence of pairs. */
  function Voltages(ps: seq<Pair>): set<real> {
    set p | p in ps :: p.voltage
  }

  /** The keys of the mapping are exactly the voltages that occur in the sequence. */
  lemma {:induction false} ToMapKeys(ps: seq<Pair>)
    ensures ToMap(ps).Keys == Voltages(ps)
  {
    if ps != [] {
      var init := ps[..|ps| - 1];
      ToMapKeys(init);
      assert ps == init + [ps[|ps| - 1]];
      assert Voltages(ps) == Voltages(init) + {ps[|ps| - 1].voltage};
    }
  }

  /** An ordered sequence denotes a mapping with one key per entry, each entry's key mapped to
      its value: the map and its iteration order hold the same pairs. */
  lemma {:induction false} ToMapAscending(vt: seq<Pair>)
    requires Ascending(vt)
    ensures |ToMap(vt)| == |vt|
    ensures forall i :: 0 <= i < |vt| ==> vt[i].voltage in ToMap(vt) && ToMap(vt)[vt[i].voltage] == vt[i].timeDiff
  {
    if vt != [] {
      var init, last := vt[..|vt| - 1], vt[|vt| - 1];
      AscendingInit(vt);
      ToMapAscending(init);
      ToMapKeys(init);
      BelowLast(vt);
      assert last.voltage !in ToMap(init);
      forall i | 0 <= i < |vt| - 1
        ensures vt[i].voltage in ToMap(vt) && ToMap(vt)[vt[i].voltage] == vt[i].timeDiff
      {
        assert vt[i] == init[i];
      }
    }
  }

  /** `voltTimes[v] = t`: the value of an existing key is replaced; otherwise the pair is inserted
      at its place in key order. */
  function Insert(vt: seq<Pair>, v: real, t: int): (r: seq<Pair>) {
    if vt == [] then [Pair(v, t)]
    else
      var init, last := vt[..|vt| - 1], vt[|vt| - 1];
      if last.voltage < v then vt + [Pair(v, t)]
      else if last.voltage == v then init + [Pair(v, t)]
      else Insert(init, v, t) + [last]
  }

  /** Insertion keeps the keys ascending; the entries afterwards are the new pair and the old
      entries with other keys. */
  lemma {:induction false} InsertAscending(vt: seq<Pair>, v: real, t: int)
    requires Ascending(vt)
    ensures Ascending(Insert(vt, v, t))
    ensures forall p :: p in Insert(vt, v, t) <==> p == Pair(v, t) || (p in vt && p.voltage != v)
  {
    if vt == [] {
      AscendingSnoc([], Pair(v, t));
    } else {
      var init, last := vt[..|vt| - 1], vt[|vt| - 1];
      assert vt == init + [last];
      assert forall p :: p in vt <==> p in init || p == last;
      AscendingInit(vt);
      BelowLast(vt);
      if last.voltage < v {
        AscendingSnoc(vt, Pair(v, t));
      } else if last.voltage == v {
        AscendingSnoc(init, Pair(v, t));
        assert forall p :: p in init ==> p.voltage < v;
      } else {
        InsertAscending(init, v, t);
        var ri := Insert(init, v, t);
        assert forall i :: 0 <= i < |ri| ==> ri[i] in ri;
        AscendingSnoc(ri, last);
      }
    }
  }

  /** Insertion keeps the keys ascending. */
  lemma InsertKeepsAscending(vt: seq<Pair>, v: real, t: int)
    requires Ascending(vt)
    ensures Ascending(Insert(vt, v, t))
  {
    InsertAscending(vt, v, t);
  }

  /** Every key of an ascending sequence is below its last key. */
  lemma BelowLast(vt: seq<Pair>)
    requires Ascending(vt) && vt != []
    ensures forall i :: 0 <= i < |vt| - 1 ==> vt[i].voltage < vt[|vt| - 1].voltage
    ensures forall p :: p in vt[..|vt| - 1] ==> p.voltage < vt[|vt| - 1].voltage
  {
    forall i | 0 <= i < |vt| - 1 ensures vt[i].voltage < vt[|vt| - 1].voltage {
      assert Key(vt, i) < Key(vt, |vt| - 1);
    }
  }

  /** Appending a pair above every key keeps a sequence ascending. */
  lemma AscendingSnoc(vt: seq<Pair>, p: Pair)
    requires Ascending(vt)
    requires forall i :: 0 <= i < |vt| ==> vt[i].voltage < p.voltage
    ensures Ascending(vt + [p])
  {
    var r := vt + [p];
    forall i, j | 0 <= i < j < |r| ensures Key(r, i) < Key(r, j) {
      if j < |vt| {
        assert Key(vt, i) < Key(vt, j);
      }
    }
  }

  /** The inserted pair is what the new mapping holds for its key; every other key keeps its value.
      The map grows by one entry exactly when the key was new. */
  lemma {:induction false} InsertToMap(vt: seq<Pair>, v: real, t: int)
    requires Ascending(vt)
    ensures ToMap(Insert(vt, v, t)) == ToMap(vt)[v := t]
    ensures |Insert(vt, v, t)| == if v in ToMap(vt) then |vt| else |vt| + 1
  {
    if vt != [] {
      var init, last := vt[..|vt| - 1], vt[|vt| - 1];
      if last.voltage < v {
        InsertAbove(vt, v, t);
      } else if last.voltage == v {
        var r := Insert(vt, v, t);
        assert r[..|r| - 1] == init;
      } else {
        AscendingInit(vt);
        InsertToMap(init, v, t);
        InsertUnderLast(vt, v, t);
      }
    }
  }

  /** A key above the last one is appended. */
  lemma InsertAbove(vt: seq<Pair>, v: real, t: int)
    requires Ascending(vt) && vt != [] && vt[|vt| - 1].voltage < v
    ensures ToMap(Insert(vt, v, t)) == ToMap(vt)[v := t]
    ensures v !in ToMap(vt)
  {
    var r := Insert(vt, v, t);
    assert r[..|r| - 1] == vt;
    ToMapKeys(vt);
    BelowLast(vt);
    assert vt == vt[..|vt| - 1] + [vt[|vt| - 1]];
  }

  /** A key below the last one goes into the part before it. */
  lemma InsertUnderLast(vt: seq<Pair>, v: real, t: int)
    requires Ascending(vt) && vt != [] && v < vt[|vt| - 1].voltage
    requires ToMap(Insert(vt[..|vt| - 1], v, t)) == ToMap(vt[..|vt| - 1])[v := t]
    ensures ToMap(Insert(vt, v, t)) == ToMap(vt)[v := t]
    ensures v in ToMap(vt) <==> v in ToMap(vt[..|vt| - 1])
  {
    var init, last := vt[..|vt| - 1], vt[|vt| - 1];
    var r := Insert(vt, v, t);
    var ri := Insert(init, v, t);
    assert r[..|r| - 1] == ri;
    assert ToMap(r) == ToMap(ri)[last.voltage := last.timeDiff];
    UpdatesCommute(ToMap(init), v, t, last.voltage, last.timeDiff);
  }

  lemma UpdatesCommute(m: map<real, int>, a: real, x: int, b: real, y: int)
    requires a != b
    ensures m[a := x][b := y] == m[b := y][a := x]
  {
  }

  /** Every slice of an ascending sequence is ascending. */
  lemma AscendingSlice(vt: seq<Pair>, lo: nat, hi: nat)
    requires Ascending(vt) && lo <= hi <= |vt|
    ensures Ascending(vt[lo..hi])
  {
    var s := vt[lo..hi];
    forall i, j | 0 <= i < j < |s| ensures Key(s, i) < Key(s, j) {
      assert Key(vt, lo + i) < Key(vt, lo + j);
    }
  }

  /** Without its last entry an ascending sequence is ascending. */
  lemma AscendingInit(vt: seq<Pair>)
    requires Ascending(vt) && vt != []
    ensures Ascending(vt[..|vt| - 1])
  {
    AscendingSlice(vt, 0, |vt| - 1);
    assert vt[0..|vt| - 1] == vt[..|vt| - 1];
  }

  /** Without its first entry an ascending sequence is ascending. */
  lemma AscendingTail(vt: seq<Pair>)
    requires Ascending(vt) && vt != []
    ensures Ascending(vt[1..])
  {
    AscendingSlice(vt, 1, |vt|);
    assert vt[1..|vt|] == vt[1..];
  }

  /** Inserting a key below every key of the upper part leaves that upper part where it is. */
  lemma {:induction false} InsertBelow(lower: seq<Pair>, upper: seq<Pair>, v: real, t: int)
    requires Ascending(lower + upper)
    requires forall i :: 0 <= i < |upper| ==> v < upper[i].voltage
    ensures Ascending(lower)
    ensures Insert(lower + upper, v, t) == Insert(lower, v, t) + upper
  {
    var whole := lower + upper;
    AscendingSlice(whole, 0, |lower|);
    assert whole[..|lower|] == lower;
    if upper == [] {
      assert whole == lower;
    } else {
      var init, last := upper[..|upper| - 1], upper[|upper| - 1];
      assert whole[..|whole| - 1] == lower + init;
      AscendingSlice(whole, 0, |whole| - 1);
      InsertBelow(lower, init, v, t);
      InsertStepDown(whole, v, t);
      assert upper == init + [last];
      AppendAssoc(Insert(lower, v, t), init, last);
    }
  }

  lemma AppendAssoc(a: seq<Pair>, b: seq<Pair>, c: Pair)
    ensures a + b + [c] == a + (b + [c])
  {
  }

  /** The recursive case of `Insert`, for a key below the last one. */
  lemma InsertStepDown(vt: seq<Pair>, v: real, t: int)
    requires Ascending(vt) && vt != [] && v < vt[|vt| - 1].voltage
    ensures Ascending(vt[..|vt| - 1])
    ensures Insert(vt, v, t) == Insert(vt[..|vt| - 1], v, t) + [vt[|vt| - 1]]
  {
    AscendingInit(vt);
  }

  /** `find`: the position of `key`, or `|vt|` (the end iterator) when the key is absent. */
  function Find(vt: seq<Pair>, key: real): (it: nat)
    ensures it <= |vt|
    ensures it < |vt| ==> vt[it].voltage == key
    ensures it == |vt| <==> forall i :: 0 <= i < |vt| ==> vt[i].voltage != key
  {
    if vt == [] then 0
    else if vt[0].voltage == key then 0
    else 1 + Find(vt[1..], key)
  }

  /** `lower_bound`: the position of the first key not less than `key`, or `|vt|` when every key
      is less. */
  function LowerBound(vt: seq<Pair>, key: real): (it: nat)
    requires Ascending(vt)
    ensures it <= |vt|
    ensures forall i :: 0 <= i < it ==> vt[i].voltage < key
    ensures forall i :: it <= i < |vt| ==> key <= vt[i].voltage
  {
    if vt == [] then 0
    else if key <= vt[0].voltage then
      forall i | 0 < i < |vt| ensures key <= vt[i].voltage {
        assert Key(vt, 0) < Key(vt, i);
      }
      0
    else
      AscendingTail(vt);
      1 + LowerBound(vt[1..], key)
  }
}
