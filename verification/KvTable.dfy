/** The `__sys_kv` table of one Cell and the operations of crates/data-node/src/kv.rs on it, with the
    background GC of crates/data-node/src/ttl.rs. Each call takes one clock reading. */
module KvTable {
  import opened Base
  import opened Ttl
  import opened KvRow

  type Table = map<string, Row>

  datatype Item = Item(key: string, value: string, ttl: Option<U64>)

  function SlotOf(rows: Table, key: string): Slot {
    if key in rows then Some(rows[key]) else None
  }

  /** The table with the slot under `key` replaced. */
  function Store(rows: Table, key: string, slot: Slot): (after: Table)
    ensures SlotOf(after, key) == slot
    ensures forall k :: k != key ==> SlotOf(after, k) == SlotOf(rows, k)
  {
    if slot.Some? then rows[key := slot.value] else rows - {key}
  }

  // ---- MGET ----

  /** What a read of `key` shows a client: its text if live, `None` otherwise. */
  function LiveText(rows: Table, key: string, now: int): Option<string> {
    if Live(SlotOf(rows, key), now) && rows[key].value.Text? then Some(rows[key].value.text) else None
  }

  predicate Unreadable(rows: Table, key: string, now: int) {
    Live(SlotOf(rows, key), now) && rows[key].value.Binary?
  }

  /** The table after the expired rows among `keys` were deleted. */
  function Sweep(rows: Table, keys: seq<string>, now: int): Table {
    map k | k in rows && !(k in keys && IsExpired(rows[k].expires, now)) :: rows[k]
  }

  /** MGET over `before`: all answers in order, or an error at the first unreadable key; expired rows
      among the keys visited are gone. */
  ghost predicate MGetOutcome(before: Table, keys: seq<string>, now: int, after: Table,
                              r: Result<seq<Option<string>>>)
  {
    match r
    case Ok(values) =>
      && |values| == |keys|
      && (forall i :: 0 <= i < |keys| ==>
          !Unreadable(before, keys[i], now) && values[i] == LiveText(before, keys[i], now))
      && after == Sweep(before, keys, now)
    case Err(e) =>
      && e == InvalidRequest
      && exists stop: nat :: StopsAt(before, keys, now, stop) && after == Sweep(before, keys[..stop], now)
  }

  predicate StopsAt(before: Table, keys: seq<string>, now: int, stop: nat) {
    && stop < |keys| && Unreadable(before, keys[stop], now)
    && forall i :: 0 <= i < stop ==> !Unreadable(before, keys[i], now)
  }

  /** The outcome predicate fixes both the answer and the table. */
  lemma MGetDetermined(before: Table, keys: seq<string>, now: int,
                       after1: Table, r1: Result<seq<Option<string>>>, after2: Table, r2: Result<seq<Option<string>>>)
    requires MGetOutcome(before, keys, now, after1, r1) && MGetOutcome(before, keys, now, after2, r2)
    ensures r1 == r2 && after1 == after2
  {
    if r1.Err? && r2.Err? {
      var s1: nat :| StopsAt(before, keys, now, s1) && after1 == Sweep(before, keys[..s1], now);
      var s2: nat :| StopsAt(before, keys, now, s2) && after2 == Sweep(before, keys[..s2], now);
      assert s1 == s2;
    } else if r1.Ok? && r2.Ok? {
      assert r1.value == r2.value;
    }
  }

  /** Deleting expired rows does not change what any key reads as. */
  lemma SweepKeepsReads(rows: Table, keys: seq<string>, now: int, key: string)
    ensures Live(SlotOf(Sweep(rows, keys, now), key), now) == Live(SlotOf(rows, key), now)
    ensures LiveText(Sweep(rows, keys, now), key, now) == LiveText(rows, key, now)
    ensures Unreadable(Sweep(rows, keys, now), key, now) == Unreadable(rows, key, now)
  {
  }

  /** Reading one more key extends the sweep by that key. */
  lemma SweepNext(rows: Table, keys: seq<string>, i: nat, now: int)
    requires i < |keys|
    ensures Sweep(rows, keys[..i + 1], now) ==
            Store(Sweep(rows, keys[..i], now), keys[i], ReadSlot(SlotOf(Sweep(rows, keys[..i], now), keys[i]), now))
  {
    var before, after := Sweep(rows, keys[..i], now), Sweep(rows, keys[..i + 1], now);
    assert keys[..i + 1] == keys[..i] + [keys[i]];
    assert after.Keys == Store(before, keys[i], ReadSlot(SlotOf(before, keys[i]), now)).Keys;
  }

  // ---- MSET: applied item by item, stopping at the first empty key ----

  predicate HasEmptyKey(items: seq<Item>) { exists i :: 0 <= i < |items| && items[i].key == "" }

  function MSetRows(rows: Table, items: seq<Item>, now: int): Table {
    if items == [] then rows
    else
      var before := MSetRows(rows, items[..|items| - 1], now);
      var it := items[|items| - 1];
      if HasEmptyKey(items) then before
      else Store(before, it.key, SetSlot(SlotOf(before, it.key), it.value, it.ttl, false, false, now))
  }

  /** After an MSET without empty keys, each key reads as the last item that names it. */
  lemma {:induction false} MSetLastWins(rows: Table, items: seq<Item>, now: int, i: nat)
    requires !HasEmptyKey(items) && i < |items|
    requires forall j :: i < j < |items| ==> items[j].key != items[i].key
    ensures var slot := SlotOf(MSetRows(rows, items, now), items[i].key);
            slot.Some? && slot.value.value == Text(items[i].value) && slot.value.expires == ExpiresAt(items[i].ttl, now)
    decreases |items|
  {
    var n := |items| - 1;
    if i < n {
      assert !HasEmptyKey(items[..n]) by {
        assert forall j :: 0 <= j < n ==> items[..n][j] == items[j];
      }
      MSetLastWins(rows, items[..n], now, i);
    }
  }

  /** A key that no item names is left alone. */
  lemma {:induction false} MSetElsewhere(rows: Table, items: seq<Item>, now: int, key: string)
    requires forall j :: 0 <= j < |items| ==> items[j].key != key
    ensures SlotOf(MSetRows(rows, items, now), key) == SlotOf(rows, key)
    decreases |items|
  {
    if items != [] { MSetElsewhere(rows, items[..|items| - 1], now, key); }
  }

  /** An MSET that meets an empty key keeps exactly the items before it. */
  lemma {:induction false} MSetStopsAtEmptyKey(rows: Table, items: seq<Item>, now: int, i: nat)
    requires i < |items| && items[i].key == "" && !HasEmptyKey(items[..i])
    ensures MSetRows(rows, items, now) == MSetRows(rows, items[..i], now)
    decreases |items|
  {
    var n := |items| - 1;
    if i < n {
      assert items[..n][..i] == items[..i];
      MSetStopsAtEmptyKey(rows, items[..n], now, i);
    }
  }

  // ---- GC ----

  /** The table after the expired rows among `picked` were deleted: whichever rows the engine's
      `LIMIT` selects. */
  function GcRows(rows: Table, picked: set<string>, now: int): Table {
    map k | k in rows && !(k in picked && IsExpired(rows[k].expires, now)) :: rows[k]
  }

  /** No writer ever stores a row under the empty key. */
  predicate NoEmptyKey(rows: Table) { "" !in rows }

  class Connection {
    var rows: Table

    constructor (rows: Table)
      ensures this.rows == rows
    {
      this.rows := rows;
    }

    method ReadWithExpiry(key: string, now: int) returns (r: Result<Option<Stored>>)
      modifies this
      ensures rows == Store(old(rows), key, ReadSlot(SlotOf(old(rows), key), now))
      ensures r == ReadAnswer(SlotOf(old(rows), key), now)
    {
      if key in rows && !IsExpired(rows[key].expires, now) {
        match rows[key].value
        case Text(t) => r := Ok(Some(Stored(t, rows[key].expires)));
        case Binary(_) => r := Err(InvalidRequest);
      } else if key in rows {
        var _ := Del(key);
        r := Ok(None);
      } else {
        r := Ok(None);
      }
      assert rows == Store(old(rows), key, ReadSlot(SlotOf(old(rows), key), now));
    }

    method Set(key: string, value: string, ttl: Option<U64>, nx: bool, xx: bool, now: int) returns (r: Result<bool>)
      modifies this
      ensures key == "" ==> r == Err(InvalidRequest) && rows == old(rows)
      ensures key != "" ==> r == Ok(SetWrites(SlotOf(old(rows), key), nx, xx))
      ensures key != "" ==> rows == Store(old(rows), key, SetSlot(SlotOf(old(rows), key), value, ttl, nx, xx, now))
      ensures NoEmptyKey(old(rows)) ==> NoEmptyKey(rows)
    {
      if key == "" {
        return Err(InvalidRequest);
      }
      var expires := ExpiresAt(ttl, now);
      if nx {
        if key in rows { return Ok(false); }
        rows := rows[key := Row(Text(value), expires, 1)];
      } else if xx {
        if key !in rows {
          assert rows == Store(old(rows), key, None);
          return Ok(false);
        }
        rows := rows[key := Row(Text(value), expires, rows[key].version + 1)];
      } else if key in rows {
        rows := rows[key := Row(Text(value), expires, rows[key].version + 1)];
      } else {
        rows := rows[key := Row(Text(value), expires, 1)];
      }
      r := Ok(true);
    }

    method Del(key: string) returns (deleted: bool)
      modifies this
      ensures rows == Store(old(rows), key, None)
      ensures deleted <==> key in old(rows)
    {
      deleted := key in rows;
      rows := rows - {key};
    }

    method Exists(key: string, now: int) returns (r: bool)
      ensures r <==> Live(SlotOf(rows, key), now)
    {
      r := key in rows && !IsExpired(rows[key].expires, now);
    }

    method TtlOf(key: string, now: int) returns (r: Option<int>)
      ensures r == TtlAnswer(SlotOf(rows, key), now)
    {
      if key in rows {
        match rows[key].expires
        case Some(e) => r := if e > now then Some(e - now) else None;
        case None => r := Some(-1);
      } else {
        r := None;
      }
    }

    method Expire(key: string, ttl: Option<U64>, now: int) returns (r: bool)
      modifies this
      ensures r <==> Live(SlotOf(old(rows), key), now)
      ensures rows == Store(old(rows), key, ExpireSlot(SlotOf(old(rows), key), ttl, now))
      ensures r ==> key in rows && rows[key].expires == ExpiresAt(ttl, now) && rows[key].value == old(rows)[key].value
      ensures !r ==> rows == old(rows)
    {
      r := Exists(key, now);
      if r {
        rows := rows[key := rows[key].(expires := ExpiresAt(ttl, now), version := rows[key].version + 1)];
      }
      assert rows == Store(old(rows), key, ExpireSlot(SlotOf(old(rows), key), ttl, now));
    }

    method Incr(key: string, delta: int, ttl: Option<U64>, now: int) returns (r: Result<int>)
      requires InI64(delta)
      modifies this
      ensures key == "" ==> r == Err(InvalidRequest) && rows == old(rows)
      ensures key != "" ==> r == IncrAnswer(SlotOf(old(rows), key), delta, now)
      ensures key != "" ==> rows == Store(old(rows), key, IncrSlot(SlotOf(old(rows), key), delta, ttl, now))
      ensures r.Err? ==> rows == old(rows)
      ensures NoEmptyKey(old(rows)) ==> NoEmptyKey(rows)
    {
      if key == "" { return Err(InvalidRequest); }
      var n, expires := delta, ExpiresAt(ttl, now);
      if key in rows && !IsExpired(rows[key].expires, now) {
        var row := rows[key];
        if row.value.Binary? || Decimal.ParseI64(row.value.text).None? { return Err(InvalidRequest); }
        n := Decimal.ParseI64(row.value.text).value + delta;
        if !InI64(n) { return Err(InvalidRequest); }
        expires := if ttl.Some? then ExpiresAt(ttl, now) else row.expires;
      } else if key in rows {
        var _ := Del(key);
      }
      rows := rows[key := Row(Text(Decimal.PrintInt(n)), expires, if key in rows then rows[key].version + 1 else 1)];
      r := Ok(n);
      assert rows == Store(old(rows), key, IncrSlot(SlotOf(old(rows), key), delta, ttl, now));
    }

    method MGet(keys: seq<string>, now: int) returns (r: Result<seq<Option<string>>>)
      modifies this
      ensures MGetOutcome(old(rows), keys, now, rows, r)
    {
      var out: seq<Option<string>> := [];
      ghost var start := rows;
      assert rows == Sweep(start, keys[..0], now);
      for i := 0 to |keys|
        invariant |out| == i && rows == Sweep(start, keys[..i], now)
        invariant forall j :: 0 <= j < i ==> !Unreadable(start, keys[j], now) && out[j] == LiveText(start, keys[j], now)
      {
        SweepKeepsReads(start, keys[..i], now, keys[i]);
        SweepNext(start, keys, i, now);
        var one := ReadWithExpiry(keys[i], now);
        if one.Err? {
          assert StopsAt(start, keys, now, i);
          assert rows == Sweep(start, keys[..i], now);
          return Err(InvalidRequest);
        }
        out := out + [if one.value.Some? then Some(one.value.value.value) else None];
      }
      assert keys[..|keys|] == keys;
      r := Ok(out);
    }

    method MSet(items: seq<Item>, now: int) returns (r: Result<()>)
      modifies this
      ensures rows == MSetRows(old(rows), items, now)
      ensures r == if HasEmptyKey(items) then Err(InvalidRequest) else Ok(())
      ensures NoEmptyKey(old(rows)) ==> NoEmptyKey(rows)
    {
      ghost var start := rows;
      for i := 0 to |items|
        invariant !HasEmptyKey(items[..i]) && rows == MSetRows(start, items[..i], now)
        invariant NoEmptyKey(start) ==> NoEmptyKey(rows)
      {
        var it := items[i];
        assert items[..i + 1][..i] == items[..i];
        var written := Set(it.key, it.value, it.ttl, false, false, now);
        if written.Err? {
          MSetStopsAtEmptyKey(start, items, now, i);
          return Err(InvalidRequest);
        }
        assert !HasEmptyKey(items[..i + 1]) by {
          assert forall j :: 0 <= j < i ==> items[..i][j] == items[..i + 1][j];
        }
      }
      assert items[..|items|] == items;
      r := Ok(());
    }

    /** Deletes the picked expired rows; a live row is never collected. */
    method GcExpired(picked: set<string>, now: int)
      modifies this
      ensures rows == GcRows(old(rows), picked, now)
      ensures forall k :: Live(SlotOf(old(rows), k), now) || k !in picked ==> SlotOf(rows, k) == SlotOf(old(rows), k)
      ensures forall k :: k in picked && !Live(SlotOf(old(rows), k), now) ==> k !in rows
    {
      rows := map k | k in rows && !(k in picked && IsExpired(rows[k].expires, now)) :: rows[k];
    }
  }
}
