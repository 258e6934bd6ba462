/** The KV serving layer of a Data Node (crates/data-node/src/lib.rs, crates/data-node/src/cache.rs): a
    cache shared by all Cells in front of one Cell's table. Every operation is proved to answer and to
    change the table exactly as the uncached table does, whatever the cache happens to hold. */
module KvNode {
  import opened Base
  import opened Ttl
  import opened KvRow
  import opened KvTable

  datatype CacheKey = CacheKey(db: nat, key: string)

  datatype CachedValue = CachedValue(value: string, expires: Option<int>)

  /** What a client gets for a key: the value and the seconds left. */
  datatype Entry = Entry(value: string, ttl: Option<int>)

  type Cache = map<CacheKey, CachedValue>

  function CacheAnswer(inner: Cache, k: CacheKey, now: int): Option<Entry> {
    if k in inner && !IsExpired(inner[k].expires, now) then
      Some(Entry(inner[k].value, Remaining(inner[k].expires, now)))
    else None
  }

  class KvCache {
    var inner: Cache
    var hits: nat
    var misses: nat

    constructor ()
      ensures inner == map[] && hits == 0 && misses == 0
    {
      inner, hits, misses := map[], 0, 0;
    }

    /** A hit returns the entry; an expired entry is dropped and counts as a miss. */
    method Get(db: nat, key: string, now: int) returns (r: Option<Entry>)
      modifies this
      ensures r == CacheAnswer(old(inner), CacheKey(db, key), now)
      ensures r.Some? ==> inner == old(inner) && hits == old(hits) + 1 && misses == old(misses)
      ensures r.None? ==> inner == old(inner) - {CacheKey(db, key)} && hits == old(hits) && misses == old(misses) + 1
    {
      var k := CacheKey(db, key);
      if k in inner && !IsExpired(inner[k].expires, now) {
        hits := hits + 1;
        r := Some(Entry(inner[k].value, Remaining(inner[k].expires, now)));
      } else {
        if k in inner { inner := inner - {k}; }
        assert inner == old(inner) - {k};
        misses := misses + 1;
        r := None;
      }
    }

    method Put(db: nat, key: string, value: string, expires: Option<int>)
      modifies this`inner
      ensures inner == old(inner)[CacheKey(db, key) := CachedValue(value, expires)]
    {
      inner := inner[CacheKey(db, key) := CachedValue(value, expires)];
    }

    method Invalidate(db: nat, key: string)
      modifies this`inner
      ensures inner == old(inner) - {CacheKey(db, key)}
    {
      inner := inner - {CacheKey(db, key)};
    }

    /** Collects the keys of one database, then invalidates them one by one. */
    method ClearDatabase(db: nat)
      modifies this`inner
      ensures inner == map k | k in old(inner) && k.db != db :: old(inner)[k]
    {
      var keys := set k | k in inner && k.db == db;
      var left := keys;
      ghost var done := {};
      while left != {}
        invariant left == keys - done && done <= keys && inner == old(inner) - done
        decreases left
      {
        var k :| k in left;
        RemoveMore(old(inner), done, k);
        inner := inner - {k};
        left, done := left - {k}, done + {k};
      }
      assert done == keys;
    }
  }

  lemma RemoveMore(m: Cache, done: set<CacheKey>, k: CacheKey)
    ensures m - done - {k} == m - (done + {k})
  {
  }

  // ---- coherence ----

  /** A cached entry repeats the row under its key, or has been expired since a GC that may have
      removed that row (`floor` is the latest clock reading of any GC). */
  predicate EntryOk(rows: Table, key: string, e: CachedValue, floor: int) {
    || (key in rows && rows[key].value == Text(e.value) && rows[key].expires == e.expires)
    || IsExpired(e.expires, floor)
  }

  ghost predicate Coherent(inner: Cache, db: nat, rows: Table, floor: int) {
    forall key :: CacheKey(db, key) in inner ==> EntryOk(rows, key, inner[CacheKey(db, key)], floor)
  }

  /** The entries of every other database are as they were. */
  ghost predicate SameElsewhere(before: Cache, after: Cache, db: nat) {
    forall k: CacheKey :: k.db != db ==>
      (k in before <==> k in after) && (k in before ==> before[k] == after[k])
  }

  function GetAnswer(slot: Slot, now: int): Result<Option<Entry>> {
    match ReadAnswer(slot, now)
    case Err(e) => Err(e)
    case Ok(None) => Ok(None)
    case Ok(Some(s)) => Ok(Some(Entry(s.value, Remaining(s.expires, now))))
  }

  function ServedAnswer(inner: Cache, k: CacheKey, slot: Slot, now: int): Result<Option<Entry>> {
    if CacheAnswer(inner, k, now).Some? then Ok(CacheAnswer(inner, k, now)) else GetAnswer(slot, now)
  }

  /** A GET after a SET that wrote returns the value, with the seconds that are left of its ttl, until they are over;
      from then on, as before a first SET, nothing. */
  lemma SetThenGet(slot: Slot, value: string, ttl: Option<U64>, nx: bool, xx: bool, now: int, later: int)
    requires SetWrites(slot, nx, xx) && (ttl.Some? ==> InI64(now + ttl.value))
    ensures GetAnswer(SetSlot(slot, value, ttl, nx, xx, now), later) ==
            if ttl.None? then Ok(Some(Entry(value, None)))
            else if later - now < ttl.value then Ok(Some(Entry(value, Some(ttl.value - (later - now)))))
            else Ok(None)
    ensures GetAnswer(None, later) == Ok(None)
  {
    SetThenRead(slot, value, ttl, nx, xx, now, later);
    LivesForItsTtl(ttl, now, later);
  }

  /** Putting what was written into the row keeps cache and table coherent. */
  lemma PutKeepsCoherent(inner: Cache, db: nat, rows: Table, floor: int, key: string, row: Row)
    requires Coherent(inner, db, rows, floor) && row.value.Text?
    ensures Coherent(inner[CacheKey(db, key) := CachedValue(row.value.text, row.expires)], db, rows[key := row], floor)
  {
  }

  /** After an invalidation the row may change in any way, or go: they stay coherent. */
  lemma InvalidateKeepsCoherent(inner: Cache, db: nat, rows: Table, floor: int, key: string, slot: Slot)
    requires Coherent(inner, db, rows, floor)
    ensures Coherent(inner - {CacheKey(db, key)}, db, Store(rows, key, slot), floor)
  {
  }

  /** Without it they stay coherent only if the entry had expired by the latest GC or the row still says the same. */
  lemma StaleEntryBreaksCoherence(inner: Cache, db: nat, rows: Table, floor: int, key: string, slot: Slot)
    requires Coherent(inner, db, rows, floor) && CacheKey(db, key) in inner
    ensures Coherent(inner, db, Store(rows, key, slot), floor) <==>
            EntryOk(Store(rows, key, slot), key, inner[CacheKey(db, key)], floor)
  {
    var after := Store(rows, key, slot);
    if EntryOk(after, key, inner[CacheKey(db, key)], floor) {
      forall k | CacheKey(db, k) in inner ensures EntryOk(after, k, inner[CacheKey(db, k)], floor) {
        assert EntryOk(rows, k, inner[CacheKey(db, k)], floor);
      }
    }
  }

  /** A cache hit says what the row says. */
  lemma HitAgrees(inner: Cache, db: nat, rows: Table, floor: int, key: string, now: int)
    requires Coherent(inner, db, rows, floor) && floor <= now
    requires CacheAnswer(inner, CacheKey(db, key), now).Some?
    ensures GetAnswer(SlotOf(rows, key), now) == Ok(CacheAnswer(inner, CacheKey(db, key), now))
    ensures Live(SlotOf(rows, key), now) && LiveText(rows, key, now) == Some(inner[CacheKey(db, key)].value)
    ensures rows == Store(rows, key, ReadSlot(SlotOf(rows, key), now))
  {
  }

  /** The bookkeeping of an MGET: which positions missed, and what the hits answered. */
  ghost predicate Probed(rows: Table, keys: seq<string>, now: int, n: nat, out: seq<Option<string>>, miss: seq<nat>)
    requires n <= |keys|
  {
    && |out| == n
    && (forall a, b :: 0 <= a < b < |miss| ==> miss[a] < miss[b])
    && (forall a :: 0 <= a < |miss| ==> miss[a] < n)
    && (forall j :: 0 <= j < n && j !in miss ==> HitAt(rows, keys, now, out, j))
  }

  ghost predicate HitAt(rows: Table, keys: seq<string>, now: int, out: seq<Option<string>>, j: nat)
    requires j < |keys| && j < |out|
  {
    Live(SlotOf(rows, keys[j]), now) && LiveText(rows, keys[j], now).Some? && out[j] == LiveText(rows, keys[j], now)
  }

  /** No missed key has a cached entry that outlived its row. */
  ghost predicate NotStale(inner: Cache, db: nat, rows: Table, keys: seq<string>, now: int, miss: seq<nat>)
    requires forall a :: 0 <= a < |miss| ==> miss[a] < |keys|
  {
    forall a :: 0 <= a < |miss| ==> CacheKey(db, keys[miss[a]]) in inner ==> Live(SlotOf(rows, keys[miss[a]]), now)
  }

  /** How far the table has been swept when the misses before `idx` have been read. */
  function SweptTo(miss: seq<nat>, n: nat, idx: nat): nat
    requires idx <= |miss|
  {
    if idx == |miss| then n else miss[idx]
  }

  /** Keys that were hits are live, so passing over them sweeps nothing. */
  lemma {:induction false} SweepOverHits(rows: Table, keys: seq<string>, now: int, from: nat, end: nat)
    requires from <= end <= |keys|
    requires forall j :: from <= j < end ==> Live(SlotOf(rows, keys[j]), now)
    ensures Sweep(rows, keys[..end], now) == Sweep(rows, keys[..from], now)
    decreases end
  {
    if from < end {
      SweepOverHits(rows, keys, now, from, end - 1);
      SweepNext(rows, keys, end - 1, now);
      SweepKeepsReads(rows, keys[..end - 1], now, keys[end - 1]);
    }
  }

  /** Reading the miss at `idx` sweeps the table up to the next miss. */
  lemma SweepPastMiss(rows: Table, keys: seq<string>, now: int, out: seq<Option<string>>, miss: seq<nat>, idx: nat)
    requires Probed(rows, keys, now, |keys|, out, miss) && idx < |miss|
    ensures var before := Sweep(rows, keys[..miss[idx]], now);
            var key := keys[miss[idx]];
            Sweep(rows, keys[..SweptTo(miss, |keys|, idx + 1)], now)
              == Store(before, key, ReadSlot(SlotOf(before, key), now))
  {
    var to := SweptTo(miss, |keys|, idx + 1);
    forall j | miss[idx] + 1 <= j < to ensures Live(SlotOf(rows, keys[j]), now) {
      Between(miss, |keys|, idx, j);
      assert HitAt(rows, keys, now, out, j);
    }
    SweepOverHits(rows, keys, now, miss[idx] + 1, to);
    SweepNext(rows, keys, miss[idx], now);
  }

  /** Nothing strictly between two neighbouring misses is a miss. */
  lemma Between(miss: seq<nat>, n: nat, idx: nat, j: nat)
    requires forall a, b :: 0 <= a < b < |miss| ==> miss[a] < miss[b]
    requires idx < |miss| && miss[idx] < j < SweptTo(miss, n, idx + 1)
    ensures j !in miss
  {
    forall a | 0 <= a < |miss| ensures miss[a] != j {
      if a < idx {
        assert miss[a] < miss[idx];
      } else if a > idx + 1 {
        assert miss[idx + 1] < miss[a];
      }
    }
  }

  // ---- one Cell served through the cache ----

  class CellKv {
    const db: nat
    const conn: Connection
    const cache: KvCache
    /** Latest clock reading of any background GC on this Cell. */
    ghost var floor: int

    constructor (db: nat, conn: Connection, cache: KvCache, ghost floor: int)
      requires Coherent(cache.inner, db, conn.rows, floor)
      ensures this.db == db && this.conn == conn && this.cache == cache && this.floor == floor && Valid()
    {
      this.db, this.conn, this.cache, this.floor := db, conn, cache, floor;
    }

    ghost predicate Valid()
      reads this, conn, cache
    {
      Coherent(cache.inner, db, conn.rows, floor)
    }

    /** Answers from the cache if it can. With a clock that has not fallen behind a GC that is the table's answer. */
    method KvGet(key: string, now: int) returns (r: Result<Option<Entry>>)
      requires Valid()
      modifies conn, cache
      ensures Valid() && SameElsewhere(old(cache.inner), cache.inner, db)
      ensures r == ServedAnswer(old(cache.inner), CacheKey(db, key), SlotOf(old(conn.rows), key), now)
      ensures floor <= now ==> conn.rows == Store(old(conn.rows), key, ReadSlot(SlotOf(old(conn.rows), key), now))
      ensures floor <= now ==> r == GetAnswer(SlotOf(old(conn.rows), key), now)
    {
      var entry := cache.Get(db, key, now);
      if entry.Some? {
        if floor <= now { HitAgrees(old(cache.inner), db, conn.rows, floor, key, now); }
        return Ok(entry);
      }
      var row := conn.ReadWithExpiry(key, now);
      match row
      case Ok(Some(s)) =>
        cache.Put(db, key, s.value, s.expires);
        r := Ok(Some(Entry(s.value, Remaining(s.expires, now))));
      case Ok(None) => r := Ok(None);
      case Err(e) => r := Err(e);
    }

    method KvSet(key: string, value: string, ttl: Option<U64>, nx: bool, xx: bool, now: int) returns (r: Result<bool>)
      requires Valid() && floor <= now
      modifies conn, cache
      ensures Valid() && SameElsewhere(old(cache.inner), cache.inner, db)
      ensures key == "" ==> r == Err(InvalidRequest) && conn.rows == old(conn.rows)
      ensures key != "" ==> r == Ok(SetWrites(SlotOf(old(conn.rows), key), nx, xx))
      ensures key != "" ==>
                conn.rows == Store(old(conn.rows), key, SetSlot(SlotOf(old(conn.rows), key), value, ttl, nx, xx, now))
    {
      r := conn.Set(key, value, ttl, nx, xx, now);
      if r == Ok(true) {
        cache.Put(db, key, value, ExpiresAt(ttl, now));
      }
    }

    method KvDel(key: string) returns (deleted: bool)
      requires Valid()
      modifies conn, cache
      ensures Valid() && SameElsewhere(old(cache.inner), cache.inner, db)
      ensures deleted <==> key in old(conn.rows)
      ensures conn.rows == Store(old(conn.rows), key, None)
    {
      deleted := conn.Del(key);
      if deleted { cache.Invalidate(db, key); }
    }

    method KvExists(key: string, now: int) returns (r: bool)
      requires Valid() && floor <= now
      modifies cache
      ensures Valid() && SameElsewhere(old(cache.inner), cache.inner, db)
      ensures r <==> Live(SlotOf(conn.rows, key), now)
    {
      var entry := cache.Get(db, key, now);
      if entry.Some? {
        HitAgrees(old(cache.inner), db, conn.rows, floor, key, now);
        return true;
      }
      r := conn.Exists(key, now);
    }

    /** The cached answer differs from the table's only for a persistent key served from the cache:
        `None` instead of `Some(-1)`. */
    method KvTtl(key: string, now: int) returns (r: Option<int>)
      requires Valid() && floor <= now
      modifies cache
      ensures Valid() && SameElsewhere(old(cache.inner), cache.inner, db)
      ensures r == TtlAnswer(SlotOf(conn.rows, key), now) <==>
              !(CacheKey(db, key) in old(cache.inner) && old(cache.inner)[CacheKey(db, key)].expires.None?)
      ensures r != TtlAnswer(SlotOf(conn.rows, key), now) ==>
                r == None && TtlAnswer(SlotOf(conn.rows, key), now) == Some(-1)
    {
      var entry := cache.Get(db, key, now);
      if entry.Some? {
        HitAgrees(old(cache.inner), db, conn.rows, floor, key, now);
        return entry.value.ttl;
      }
      r := conn.TtlOf(key, now);
    }

    method KvExpire(key: string, ttl: Option<U64>, now: int) returns (r: bool)
      requires Valid() && floor <= now
      modifies conn, cache
      ensures Valid() && SameElsewhere(old(cache.inner), cache.inner, db)
      ensures r <==> Live(SlotOf(old(conn.rows), key), now)
      ensures conn.rows == Store(old(conn.rows), key, ExpireSlot(SlotOf(old(conn.rows), key), ttl, now))
    {
      r := conn.Expire(key, ttl, now);
      if r { cache.Invalidate(db, key); }
    }

    method KvIncr(key: string, delta: int, ttl: Option<U64>, now: int) returns (r: Result<int>)
      requires Valid() && floor <= now && InI64(delta)
      modifies conn, cache
      ensures Valid() && SameElsewhere(old(cache.inner), cache.inner, db)
      ensures key == "" ==> r == Err(InvalidRequest) && conn.rows == old(conn.rows)
      ensures key != "" ==> r == IncrAnswer(SlotOf(old(conn.rows), key), delta, now)
      ensures key != "" ==>
                conn.rows == Store(old(conn.rows), key, IncrSlot(SlotOf(old(conn.rows), key), delta, ttl, now))
    {
      r := conn.Incr(key, delta, ttl, now);
      if r.Ok? { cache.Invalidate(db, key); }
    }

    method KvMGet(keys: seq<string>, now: int) returns (r: Result<seq<Option<string>>>)
      requires Valid() && floor <= now
      modifies conn, cache
      ensures Valid() && SameElsewhere(old(cache.inner), cache.inner, db)
      ensures MGetOutcome(old(conn.rows), keys, now, conn.rows, r)
    {
      var out, miss := Probe(keys, now);
      r := ReadMisses(keys, now, out, miss);
    }

    /** First pass: look every key up in the cache, without the lock. */
    method Probe(keys: seq<string>, now: int) returns (out: seq<Option<string>>, miss: seq<nat>)
      requires Valid() && floor <= now
      modifies cache
      ensures Valid() && SameElsewhere(old(cache.inner), cache.inner, db)
      ensures Probed(conn.rows, keys, now, |keys|, out, miss)
      ensures NotStale(cache.inner, db, conn.rows, keys, now, miss)
    {
      out, miss := [], [];
      for i := 0 to |keys|
        invariant Valid() && SameElsewhere(old(cache.inner), cache.inner, db)
        invariant Probed(conn.rows, keys, now, i, out, miss)
        invariant forall a :: 0 <= a < |miss| ==> CacheKey(db, keys[miss[a]]) !in cache.inner
      {
        ghost var before, hitsSoFar := cache.inner, out;
        var entry := cache.Get(db, keys[i], now);
        match entry
        case Some(e) =>
          HitAgrees(before, db, conn.rows, floor, keys[i], now);
          out := out + [Some(e.value)];
        case None =>
          out, miss := out + [None], miss + [i];
        forall j | 0 <= j <= i && j !in miss ensures HitAt(conn.rows, keys, now, out, j) {
          if j < i { assert HitAt(conn.rows, keys, now, hitsSoFar, j); }
        }
      }
    }

    /** Read one key from the table, under the lock, and fill the cache. */
    method ReadAndFill(key: string, now: int) returns (row: Result<Option<Stored>>)
      requires Valid() && floor <= now
      requires CacheKey(db, key) in cache.inner ==> Live(SlotOf(conn.rows, key), now)
      modifies conn, cache
      ensures Valid() && SameElsewhere(old(cache.inner), cache.inner, db)
      ensures conn.rows == Store(old(conn.rows), key, ReadSlot(SlotOf(old(conn.rows), key), now))
      ensures row == ReadAnswer(SlotOf(old(conn.rows), key), now)
      ensures forall k :: CacheKey(db, k) in cache.inner ==>
                CacheKey(db, k) in old(cache.inner) || (k == key && Live(SlotOf(old(conn.rows), key), now))
    {
      row := conn.ReadWithExpiry(key, now);
      if row.Ok? && row.value.Some? {
        cache.Put(db, key, row.value.value.value, row.value.value.expires);
      }
    }

    /** Second pass: read the keys that missed from the table, under the lock, and fill the cache. */
    method ReadMisses(keys: seq<string>, now: int, probed: seq<Option<string>>, miss: seq<nat>)
      returns (r: Result<seq<Option<string>>>)
      requires Valid() && floor <= now
      requires Probed(conn.rows, keys, now, |keys|, probed, miss)
      requires NotStale(cache.inner, db, conn.rows, keys, now, miss)
      modifies conn, cache
      ensures Valid() && SameElsewhere(old(cache.inner), cache.inner, db)
      ensures MGetOutcome(old(conn.rows), keys, now, conn.rows, r)
    {
      ghost var start := conn.rows;
      var out := probed;
      SweepStart(start, keys, now, probed, miss);
      for idx := 0 to |miss|
        invariant Valid() && SameElsewhere(old(cache.inner), cache.inner, db)
        invariant |out| == |keys| && conn.rows == Sweep(start, keys[..SweptTo(miss, |keys|, idx)], now)
        invariant NotStale(cache.inner, db, start, keys, now, miss)
        invariant HitsKept(probed, out, miss) && ReadUpTo(start, keys, now, out, miss, idx)
      {
        var i := miss[idx];
        SweepKeepsReads(start, keys[..i], now, keys[i]);
        SweepPastMiss(start, keys, now, probed, miss, idx);
        ghost var before := cache.inner;
        var row := ReadAndFill(keys[i], now);
        if row.Err? {
          EarlierReadable(start, keys, now, probed, out, miss, idx);
          assert conn.rows == Sweep(start, keys[..i], now);
          return Err(InvalidRequest);
        }
        StaysFresh(before, cache.inner, db, start, keys, now, miss, keys[i]);
        ghost var was := out;
        out := out[i := if row.value.Some? then Some(row.value.value.value) else None];
        StillRead(start, keys, now, was, out, miss, idx);
      }
      assert keys[..|keys|] == keys;
      AllRead(start, keys, now, probed, out, miss);
      r := Ok(out);
    }

    method KvMSet(items: seq<Item>, now: int) returns (r: Result<()>)
      requires Valid() && floor <= now
      modifies conn, cache
      ensures Valid() && SameElsewhere(old(cache.inner), cache.inner, db)
      ensures conn.rows == MSetRows(old(conn.rows), items, now)
      ensures r == if HasEmptyKey(items) then Err(InvalidRequest) else Ok(())
    {
      ghost var start := conn.rows;
      for i := 0 to |items|
        invariant Valid() && SameElsewhere(old(cache.inner), cache.inner, db)
        invariant !HasEmptyKey(items[..i]) && conn.rows == MSetRows(start, items[..i], now)
      {
        var it := items[i];
        assert items[..i + 1][..i] == items[..i];
        var written := conn.Set(it.key, it.value, it.ttl, false, false, now);
        if written.Err? {
          MSetStopsAtEmptyKey(start, items, now, i);
          return Err(InvalidRequest);
        }
        cache.Put(db, it.key, it.value, ExpiresAt(it.ttl, now));
        assert !HasEmptyKey(items[..i + 1]) by {
          assert forall j :: 0 <= j < i ==> items[..i][j] == items[..i + 1][j];
        }
      }
      assert items[..|items|] == items;
      r := Ok(());
    }

    /** The cache may drop any entry at any time. */
    method Evict(k: CacheKey)
      requires Valid()
      modifies cache`inner
      ensures Valid() && cache.inner == old(cache.inner) - {k}
    {
      cache.inner := cache.inner - {k};
    }

    /** Background GC deletes expired rows and leaves the cache alone. */
    method Gc(picked: set<string>, now: int)
      requires Valid()
      modifies conn, this`floor
      ensures Valid() && floor == (if old(floor) > now then old(floor) else now)
      ensures conn.rows == GcRows(old(conn.rows), picked, now)
    {
      conn.GcExpired(picked, now);
      floor := if floor > now then floor else now;
    }
  }

  ghost predicate ReadAt(rows: Table, keys: seq<string>, now: int, out: seq<Option<string>>, j: nat)
    requires j < |keys| && j < |out|
  {
    !Unreadable(rows, keys[j], now) && out[j] == LiveText(rows, keys[j], now)
  }

  /** The first `n` misses have been read. */
  ghost predicate ReadUpTo(rows: Table, keys: seq<string>, now: int, out: seq<Option<string>>, miss: seq<nat>, n: nat)
    requires n <= |miss| && |out| == |keys| && forall a :: 0 <= a < |miss| ==> miss[a] < |keys|
  {
    forall a :: 0 <= a < n ==> ReadAt(rows, keys, now, out, miss[a])
  }

  lemma SweepStart(rows: Table, keys: seq<string>, now: int, out: seq<Option<string>>, miss: seq<nat>)
    requires Probed(rows, keys, now, |keys|, out, miss)
    ensures rows == Sweep(rows, keys[..SweptTo(miss, |keys|, 0)], now)
  {
    var to := SweptTo(miss, |keys|, 0);
    forall j | 0 <= j < to ensures Live(SlotOf(rows, keys[j]), now) {
      forall a | 0 <= a < |miss| ensures miss[a] != j {
        if a > 0 { assert miss[0] < miss[a]; }
      }
      assert HitAt(rows, keys, now, out, j);
    }
    SweepOverHits(rows, keys, now, 0, to);
    assert rows == Sweep(rows, keys[..0], now);
  }

  lemma MissOrder(miss: seq<nat>, a: nat, idx: nat)
    requires forall a, b :: 0 <= a < b < |miss| ==> miss[a] < miss[b]
    requires a < |miss| && idx < |miss|
    ensures a < idx <==> miss[a] < miss[idx]
  {
    if a > idx { assert miss[idx] < miss[a]; }
  }

  ghost predicate HitsKept(probed: seq<Option<string>>, out: seq<Option<string>>, miss: seq<nat>) {
    |out| == |probed| && forall j :: 0 <= j < |out| && j !in miss ==> out[j] == probed[j]
  }

  /** Filling in a live key leaves no missed key with an entry that outlived its row. */
  lemma StaysFresh(before: Cache, after: Cache, db: nat, rows: Table, keys: seq<string>, now: int, miss: seq<nat>,
                   key: string)
    requires forall a :: 0 <= a < |miss| ==> miss[a] < |keys|
    requires NotStale(before, db, rows, keys, now, miss)
    requires forall k :: CacheKey(db, k) in after ==>
               CacheKey(db, k) in before || (k == key && Live(SlotOf(rows, key), now))
    ensures NotStale(after, db, rows, keys, now, miss)
  {
  }

  /** Filling in a later answer leaves the earlier ones alone. */
  lemma StillRead(rows: Table, keys: seq<string>, now: int, was: seq<Option<string>>, out: seq<Option<string>>,
                  miss: seq<nat>, idx: nat)
    requires idx < |miss| && |was| == |out| == |keys| && (forall a :: 0 <= a < |miss| ==> miss[a] < |keys|)
    requires forall a, b :: 0 <= a < b < |miss| ==> miss[a] < miss[b]
    requires ReadUpTo(rows, keys, now, was, miss, idx)
    requires forall j :: 0 <= j < |keys| && j != miss[idx] ==> out[j] == was[j]
    requires ReadAt(rows, keys, now, out, miss[idx])
    ensures ReadUpTo(rows, keys, now, out, miss, idx + 1)
  {
    forall a | 0 <= a <= idx ensures ReadAt(rows, keys, now, out, miss[a]) {
      if a < idx { assert ReadAt(rows, keys, now, was, miss[a]); }
    }
  }

  lemma AllRead(rows: Table, keys: seq<string>, now: int, probed: seq<Option<string>>, out: seq<Option<string>>,
                miss: seq<nat>)
    requires Probed(rows, keys, now, |keys|, probed, miss) && |out| == |keys|
    requires HitsKept(probed, out, miss)
    requires ReadUpTo(rows, keys, now, out, miss, |miss|)
    ensures forall j :: 0 <= j < |keys| ==> !Unreadable(rows, keys[j], now) && out[j] == LiveText(rows, keys[j], now)
  {
    forall j | 0 <= j < |keys| ensures !Unreadable(rows, keys[j], now) && out[j] == LiveText(rows, keys[j], now) {
      if j in miss {
        var a :| 0 <= a < |miss| && miss[a] == j;
        assert ReadAt(rows, keys, now, out, miss[a]);
      } else {
        assert HitAt(rows, keys, now, probed, j);
      }
    }
  }

  lemma EarlierReadable(rows: Table, keys: seq<string>, now: int, probed: seq<Option<string>>, out: seq<Option<string>>,
                        miss: seq<nat>, idx: nat)
    requires Probed(rows, keys, now, |keys|, probed, miss) && idx < |miss| && |out| == |keys|
    requires ReadUpTo(rows, keys, now, out, miss, idx)
    requires Unreadable(rows, keys[miss[idx]], now)
    ensures StopsAt(rows, keys, now, miss[idx])
  {
    forall j | 0 <= j < miss[idx] ensures !Unreadable(rows, keys[j], now) {
      if j in miss {
        var a :| 0 <= a < |miss| && miss[a] == j;
        MissOrder(miss, a, idx);
        assert ReadAt(rows, keys, now, out, miss[a]);
      } else {
        assert HitAt(rows, keys, now, probed, j);
      }
    }
  }
}
