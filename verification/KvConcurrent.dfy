/** The KV serving layer under concurrency (crates/data-node/src/lib.rs, crates/data-node/src/cache.rs,
    crates/data-node/src/manager.rs). Writers and slow readers hold the connection mutex across "table, then
    cache"; fast readers probe the cache without it and may invalidate an expired entry late; eviction, GC and
    clock ticks interleave freely. A write takes effect for readers when it updates the cache: that is where
    it enters the history of its key. */
module KvConcurrent {
  import opened Base
  import opened Ttl
  import opened KvRow
  import opened KvTable
  import opened KvNode

  datatype Write =
    | SetOp(value: string, ttl: Option<U64>, nx: bool, xx: bool)
    | DelOp
    | ExpireOp(ttl: Option<U64>)
    | IncrOp(delta: int, ttl: Option<U64>)

  /** Whether the write changes the table; otherwise it returns without touching the cache. */
  predicate Takes(w: Write, key: string, slot: Slot, now: int) {
    match w
    case SetOp(_, _, nx, xx) => key != "" && SetWrites(slot, nx, xx)
    case DelOp => slot.Some?
    case ExpireOp(_) => Live(slot, now)
    case IncrOp(d, _) => key != "" && IncrAnswer(slot, d, now).Ok?
  }

  function Effect(w: Write, slot: Slot, now: int): Slot {
    match w
    case SetOp(v, ttl, nx, xx) => SetSlot(slot, v, ttl, nx, xx, now)
    case DelOp => None
    case ExpireOp(ttl) => ExpireSlot(slot, ttl, now)
    case IncrOp(d, ttl) => IncrSlot(slot, d, ttl, now)
  }

  /** A finished write: the slot it left, and the two clock readings it took, one for the table and
      one for the cache. */
  datatype Commit = Commit(slot: Slot, ttl: Option<U64>, wroteAt: int, cachedAt: int)

  datatype Pc =
    | Idle
    | Reading(key: string, now: int, since: nat)
    | Stale(key: string, since: nat)
    | Waiting(key: string, since: nat)
    | Filling(key: string, since: nat, row: Row, seen: int)
    | Storing(key: string, w: Write, before: Slot, wroteAt: int)

  datatype Outcome = Found(value: string) | Missing | Corrupt

  /** A finished GET: `since` and `at` count the writes in the key's history when it began and when it
      read; `clock` is the clock reading it judged expiry by. */
  datatype Read = Read(thread: nat, key: string, since: nat, at: nat, outcome: Outcome, clock: int)

  datatype State = State(
    rows: Table, cache: map<string, CachedValue>, clock: int, holder: Option<nat>,
    threads: map<nat, Pc>, history: map<string, seq<Commit>>, replies: seq<Read>)

  datatype Event =
    | Tick(secs: nat)
    | Evict(key: string)
    | Gc(picked: set<string>)
    | BeginGet(t: nat, key: string)
    | Probe(t: nat)
    | DropStale(t: nat)
    | LockedRead(t: nat)
    | Fill(t: nat)
    | StoreWrite(t: nat, key: string, w: Write)
    | FinishWrite(t: nat)

  function Hist(s: State, k: string): seq<Commit> {
    if k in s.history then s.history[k] else []
  }

  function PcOf(s: State, t: nat): Pc {
    if t in s.threads then s.threads[t] else Idle
  }

  function Goto(s: State, t: nat, pc: Pc): State {
    s.(threads := s.threads[t := pc])
  }

  function Respond(s: State, r: Read): State {
    Goto(s, r.thread, Idle).(replies := s.replies + [r])
  }

  /** Every row that exists at the start counts as one write in its key's history. */
  function Init(rows: Table, clock: int): State {
    State(rows, map[], clock, None, map[], map k | k in rows :: [Commit(Some(rows[k]), None, clock, clock)], [])
  }

  // ---- the steps; a step that is not enabled changes nothing ----

  function DoProbe(s: State, t: nat): State
    requires PcOf(s, t).Reading?
  {
    var Reading(k, now, since) := PcOf(s, t);
    if k in s.cache && !IsExpired(s.cache[k].expires, now) then
      Respond(s, Read(t, k, since, |Hist(s, k)|, Found(s.cache[k].value), now))
    else if k in s.cache then Goto(s, t, Stale(k, since))
    else Goto(s, t, Waiting(k, since))
  }

  function DoLockedRead(s: State, t: nat): State
    requires PcOf(s, t).Waiting?
  {
    var Waiting(k, since) := PcOf(s, t);
    var slot := SlotOf(s.rows, k);
    if !Live(slot, s.clock) then
      Respond(s.(rows := Store(s.rows, k, None)), Read(t, k, since, |Hist(s, k)|, Missing, s.clock))
    else if slot.value.value.Binary? then
      Respond(s, Read(t, k, since, |Hist(s, k)|, Corrupt, s.clock))
    else Goto(s.(holder := Some(t)), t, Filling(k, since, slot.value, s.clock))
  }

  function DoFill(s: State, t: nat): State
    requires PcOf(s, t).Filling? && PcOf(s, t).row.value.Text?
  {
    var Filling(k, since, row, seen) := PcOf(s, t);
    Respond(s.(cache := s.cache[k := CachedValue(row.value.text, row.expires)], holder := None),
            Read(t, k, since, |Hist(s, k)|, Found(row.value.text), seen))
  }

  function DoStoreWrite(s: State, t: nat, k: string, w: Write): State {
    var slot := SlotOf(s.rows, k);
    if Takes(w, k, slot, s.clock) then
      Goto(s.(rows := Store(s.rows, k, Effect(w, slot, s.clock)), holder := Some(t)), t, Storing(k, w, slot, s.clock))
    else s
  }

  function DoFinishWrite(s: State, t: nat): State
    requires PcOf(s, t).Storing?
  {
    var Storing(k, w, before, wroteAt) := PcOf(s, t);
    var cache := if w.SetOp? then s.cache[k := CachedValue(w.value, ExpiresAt(w.ttl, s.clock))] else s.cache - {k};
    var commit := Commit(SlotOf(s.rows, k), if w.SetOp? then w.ttl else None, wroteAt, s.clock);
    Goto(s.(cache := cache, holder := None, history := s.history[k := Hist(s, k) + [commit]]), t, Idle)
  }

  function Next(s: State, e: Event): State {
    match e
    case Tick(secs) => s.(clock := s.clock + secs)
    case Evict(k) => s.(cache := s.cache - {k})
    case Gc(picked) => if s.holder.None? then s.(rows := GcRows(s.rows, picked, s.clock)) else s
    case BeginGet(t, k) => if PcOf(s, t).Idle? then Goto(s, t, Reading(k, s.clock, |Hist(s, k)|)) else s
    case Probe(t) => if PcOf(s, t).Reading? then DoProbe(s, t) else s
    case DropStale(t) =>
      if PcOf(s, t).Stale? then
        Goto(s.(cache := s.cache - {PcOf(s, t).key}), t, Waiting(PcOf(s, t).key, PcOf(s, t).since))
      else s
    case LockedRead(t) => if PcOf(s, t).Waiting? && s.holder.None? then DoLockedRead(s, t) else s
    case Fill(t) => if PcOf(s, t).Filling? && PcOf(s, t).row.value.Text? then DoFill(s, t) else s
    case StoreWrite(t, k, w) => if PcOf(s, t).Idle? && s.holder.None? then DoStoreWrite(s, t, k, w) else s
    case FinishWrite(t) => if PcOf(s, t).Storing? then DoFinishWrite(s, t) else s
  }

  function Run(s: State, events: seq<Event>): State
    decreases |events|
  {
    if events == [] then s else Next(Run(s, events[..|events| - 1]), events[|events| - 1])
  }

  // ---- the invariant ----

  /** The slot readers are entitled to: the table's, or, between the two halves of a write, the one
      from before it. */
  function Committed(s: State, k: string): Slot {
    if s.holder.Some? && PcOf(s, s.holder.value).Storing? && PcOf(s, s.holder.value).key == k then
      PcOf(s, s.holder.value).before
    else SlotOf(s.rows, k)
  }

  predicate RowOk(h: seq<Commit>, slot: Slot, clock: int) {
    if h == [] then slot.None?
    else
      var last := h[|h| - 1].slot;
      slot == last || (slot.None? && last.Some? && IsExpired(last.value.expires, clock))
  }

  /** The cached expiry is the stored one (a refill) or the one from the write's second clock reading. */
  predicate EntryFrom(c: Commit, e: CachedValue) {
    && c.slot.Some? && c.slot.value.value == Text(e.value)
    && (e.expires == c.slot.value.expires
        || (e.expires == ExpiresAt(c.ttl, c.cachedAt) && c.slot.value.expires == ExpiresAt(c.ttl, c.wroteAt)))
  }

  predicate Timely(h: seq<Commit>, clock: int) {
    h == [] || h[|h| - 1].wroteAt <= h[|h| - 1].cachedAt <= clock
  }

  predicate KeyOk(s: State, k: string) {
    && RowOk(Hist(s, k), Committed(s, k), s.clock)
    && Timely(Hist(s, k), s.clock)
    && (k in s.cache ==> Hist(s, k) != [] && EntryFrom(Hist(s, k)[|Hist(s, k)| - 1], s.cache[k]))
  }

  predicate ThreadOk(s: State, t: nat) {
    && (s.holder == Some(t) <==> PcOf(s, t).Filling? || PcOf(s, t).Storing?)
    && match PcOf(s, t)
       case Idle => true
       case Reading(k, now, since) => since <= |Hist(s, k)|
       case Stale(k, since) => since <= |Hist(s, k)|
       case Waiting(k, since) => since <= |Hist(s, k)|
       case Filling(k, since, row, seen) =>
         since <= |Hist(s, k)| && SlotOf(s.rows, k) == Some(row) && row.value.Text? && !IsExpired(row.expires, seen)
       case Storing(k, w, before, wroteAt) =>
         wroteAt <= s.clock && Takes(w, k, before, wroteAt) && SlotOf(s.rows, k) == Effect(w, before, wroteAt)
  }

  /** What the writes `h` entitle a reader to, judging expiry at `clock`: the last write's value while it
      is live by its stored expiry, or, if that write was a SET with a TTL, by the expiry it cached; nothing
      if there is no such write or it has expired. */
  predicate Explains(h: seq<Commit>, outcome: Outcome, clock: int) {
    match outcome
    case Found(v) =>
      && h != [] && h[|h| - 1].slot.Some? && h[|h| - 1].slot.value.value == Text(v)
      && (!IsExpired(h[|h| - 1].slot.value.expires, clock) || LiveByCache(h[|h| - 1], clock))
    case Missing => h == [] || h[|h| - 1].slot.None? || IsExpired(h[|h| - 1].slot.value.expires, clock)
    case Corrupt =>
      && h != [] && h[|h| - 1].slot.Some? && h[|h| - 1].slot.value.value.Binary?
      && !IsExpired(h[|h| - 1].slot.value.expires, clock)
  }

  /** The write set the expiry itself, and by its second clock reading that expiry is still to come. */
  predicate LiveByCache(c: Commit, clock: int) {
    c.slot.Some? && c.slot.value.expires == ExpiresAt(c.ttl, c.wroteAt)
      && !IsExpired(ExpiresAt(c.ttl, c.cachedAt), clock)
  }

  /** The GET is explained by the writes up to one point between its beginning and now. */
  predicate ReadOk(s: State, r: Read) {
    r.since <= r.at <= |Hist(s, r.key)| && Explains(Hist(s, r.key)[..r.at], r.outcome, r.clock)
  }

  ghost predicate Inv(s: State) {
    && (forall k :: KeyOk(s, k))
    && (forall t: nat :: ThreadOk(s, t))
    && (forall i :: 0 <= i < |s.replies| ==> ReadOk(s, s.replies[i]))
  }

  // ---- preservation ----

  lemma InitOk(rows: Table, clock: int)
    ensures Inv(Init(rows, clock))
  {
  }

  lemma TickOk(s: State, secs: nat)
    requires Inv(s)
    ensures Inv(Next(s, Tick(secs)))
  {
    var n := Next(s, Tick(secs));
    forall k ensures KeyOk(n, k) { assert KeyOk(s, k); }
    forall t: nat ensures ThreadOk(n, t) { assert ThreadOk(s, t); }
    SameReplies(s, n);
  }

  lemma EvictOk(s: State, k: string)
    requires Inv(s)
    ensures Inv(Next(s, Evict(k)))
  {
    var n := Next(s, Evict(k));
    forall j ensures KeyOk(n, j) { assert KeyOk(s, j); }
    forall t: nat ensures ThreadOk(n, t) { assert ThreadOk(s, t); }
    forall i | 0 <= i < |n.replies| ensures ReadOk(n, n.replies[i]) { assert ReadOk(s, s.replies[i]); }
  }

  lemma GcOk(s: State, picked: set<string>)
    requires Inv(s)
    ensures Inv(Next(s, Gc(picked)))
  {
    var n := Next(s, Gc(picked));
    forall k ensures KeyOk(n, k) { assert KeyOk(s, k); }
    forall t: nat ensures ThreadOk(n, t) { assert ThreadOk(s, t); }
    forall i | 0 <= i < |n.replies| ensures ReadOk(n, n.replies[i]) { assert ReadOk(s, s.replies[i]); }
  }

  /** `n` differs from `s` only in thread `t`, which does not hold the mutex, in lost cache entries and
      in new replies. */
  ghost predicate Local(s: State, n: State, t: nat) {
    && n.rows == s.rows && n.clock == s.clock && n.holder == s.holder && s.holder != Some(t) && n.history == s.history
    && (forall u: nat :: u != t ==> PcOf(n, u) == PcOf(s, u))
    && (forall k :: k in n.cache ==> k in s.cache && n.cache[k] == s.cache[k])
  }

  lemma LocalKeepsKeys(s: State, n: State, t: nat, k: string)
    requires Local(s, n, t) && KeyOk(s, k)
    ensures KeyOk(n, k)
  {
  }

  lemma LocalKeepsThreads(s: State, n: State, t: nat, u: nat)
    requires Local(s, n, t) && u != t && ThreadOk(s, u)
    ensures ThreadOk(n, u)
  {
  }

  lemma LocalOk(s: State, n: State, t: nat)
    requires Inv(s) && Local(s, n, t) && ThreadOk(n, t)
    requires forall i :: 0 <= i < |n.replies| ==> ReadOk(n, n.replies[i])
    ensures Inv(n)
  {
    forall k ensures KeyOk(n, k) { LocalKeepsKeys(s, n, t, k); }
    forall u: nat ensures ThreadOk(n, u) { if u != t { LocalKeepsThreads(s, n, t, u); } }
  }

  lemma SameReplies(s: State, n: State)
    requires Inv(s) && n.history == s.history && n.replies == s.replies
    ensures forall i :: 0 <= i < |n.replies| ==> ReadOk(n, n.replies[i])
  {
    forall i | 0 <= i < |n.replies| ensures ReadOk(n, n.replies[i]) { assert ReadOk(s, s.replies[i]); }
  }

  lemma BeginGetOk(s: State, t: nat, k: string)
    requires Inv(s) && PcOf(s, t).Idle?
    ensures Inv(Next(s, BeginGet(t, k)))
  {
    var n := Next(s, BeginGet(t, k));
    assert ThreadOk(s, t);
    SameReplies(s, n);
    LocalOk(s, n, t);
  }

  /** A reply that repeats what the history says now is explained. */
  lemma RespondReadsOk(s: State, n: State, r: Read)
    requires Inv(s) && n.replies == s.replies + [r] && n.history == s.history && ReadOk(s, r)
    ensures forall i :: 0 <= i < |n.replies| ==> ReadOk(n, n.replies[i])
  {
    forall i | 0 <= i < |n.replies| ensures ReadOk(n, n.replies[i]) {
      if i < |s.replies| { assert ReadOk(s, s.replies[i]); }
    }
  }

  lemma ProbeOk(s: State, t: nat)
    requires Inv(s) && PcOf(s, t).Reading?
    ensures Inv(DoProbe(s, t))
  {
    var n := DoProbe(s, t);
    var Reading(k, now, since) := PcOf(s, t);
    assert ThreadOk(s, t) && KeyOk(s, k);
    if k in s.cache && !IsExpired(s.cache[k].expires, now) {
      assert Hist(s, k)[..|Hist(s, k)|] == Hist(s, k);
      RespondReadsOk(s, n, Read(t, k, since, |Hist(s, k)|, Found(s.cache[k].value), now));
    } else {
      SameReplies(s, n);
    }
    LocalOk(s, n, t);
  }

  lemma DropStaleOk(s: State, t: nat)
    requires Inv(s) && PcOf(s, t).Stale?
    ensures Inv(Next(s, DropStale(t)))
  {
    var n := Next(s, DropStale(t));
    assert ThreadOk(s, t);
    SameReplies(s, n);
    LocalOk(s, n, t);
  }

  /** A read under the mutex answers at once only when it finds nothing readable. */
  lemma LockedReadReplies(s: State, t: nat)
    requires Inv(s) && PcOf(s, t).Waiting? && s.holder.None?
    ensures var n := DoLockedRead(s, t); forall i :: 0 <= i < |n.replies| ==> ReadOk(n, n.replies[i])
  {
    var n := DoLockedRead(s, t);
    var k := PcOf(s, t).key;
    assert ThreadOk(s, t) && KeyOk(s, k);
    assert Hist(s, k)[..|Hist(s, k)|] == Hist(s, k);
    if n.replies != s.replies {
      RespondReadsOk(s, n, n.replies[|s.replies|]);
    } else {
      SameReplies(s, n);
    }
  }

  lemma LockedReadOk(s: State, t: nat)
    requires Inv(s) && PcOf(s, t).Waiting? && s.holder.None?
    ensures Inv(DoLockedRead(s, t))
  {
    var n := DoLockedRead(s, t);
    var k := PcOf(s, t).key;
    assert ThreadOk(s, t) && KeyOk(s, k);
    forall j ensures KeyOk(n, j) { assert KeyOk(s, j); }
    forall u: nat ensures ThreadOk(n, u) { assert ThreadOk(s, u); }
    LockedReadReplies(s, t);
  }

  lemma FillOk(s: State, t: nat)
    requires Inv(s) && PcOf(s, t).Filling? && PcOf(s, t).row.value.Text?
    ensures Inv(DoFill(s, t))
  {
    var n := DoFill(s, t);
    var Filling(k, since, row, seen) := PcOf(s, t);
    assert ThreadOk(s, t) && KeyOk(s, k);
    forall j ensures KeyOk(n, j) { assert KeyOk(s, j); }
    forall u: nat ensures ThreadOk(n, u) { assert ThreadOk(s, u); }
    assert Hist(s, k)[..|Hist(s, k)|] == Hist(s, k);
    RespondReadsOk(s, n, Read(t, k, since, |Hist(s, k)|, Found(row.value.text), seen));
  }

  lemma StoreWriteOk(s: State, t: nat, k: string, w: Write)
    requires Inv(s) && PcOf(s, t).Idle? && s.holder.None?
    ensures Inv(DoStoreWrite(s, t, k, w))
  {
    var n := DoStoreWrite(s, t, k, w);
    assert ThreadOk(s, t);
    forall j ensures KeyOk(n, j) { assert KeyOk(s, j); }
    forall u: nat ensures ThreadOk(n, u) { assert ThreadOk(s, u); }
    forall i | 0 <= i < |n.replies| ensures ReadOk(n, n.replies[i]) { assert ReadOk(s, s.replies[i]); }
  }

  lemma FinishWriteOk(s: State, t: nat)
    requires Inv(s) && PcOf(s, t).Storing?
    ensures Inv(DoFinishWrite(s, t))
  {
    var n := DoFinishWrite(s, t);
    var Storing(k, w, before, wroteAt) := PcOf(s, t);
    assert ThreadOk(s, t);
    forall j ensures KeyOk(n, j) { assert KeyOk(s, j); }
    forall u: nat ensures ThreadOk(n, u) { assert ThreadOk(s, u); }
    forall i | 0 <= i < |n.replies| ensures ReadOk(n, n.replies[i]) {
      var r := s.replies[i];
      assert ReadOk(s, r);
      assert Hist(n, r.key)[..r.at] == Hist(s, r.key)[..r.at];
    }
  }

  lemma NextOk(s: State, e: Event)
    requires Inv(s)
    ensures Inv(Next(s, e))
  {
    match e
    case Tick(secs) => TickOk(s, secs);
    case Evict(k) => EvictOk(s, k);
    case Gc(picked) => GcOk(s, picked);
    case BeginGet(t, k) => if PcOf(s, t).Idle? { BeginGetOk(s, t, k); }
    case Probe(t) => if PcOf(s, t).Reading? { ProbeOk(s, t); }
    case DropStale(t) => if PcOf(s, t).Stale? { DropStaleOk(s, t); }
    case LockedRead(t) => if PcOf(s, t).Waiting? && s.holder.None? { LockedReadOk(s, t); }
    case Fill(t) => if PcOf(s, t).Filling? && PcOf(s, t).row.value.Text? { FillOk(s, t); }
    case StoreWrite(t, k, w) => if PcOf(s, t).Idle? && s.holder.None? { StoreWriteOk(s, t, k, w); }
    case FinishWrite(t) => if PcOf(s, t).Storing? { FinishWriteOk(s, t); }
  }

  lemma {:induction false} RunOk(s: State, events: seq<Event>)
    requires Inv(s)
    ensures Inv(Run(s, events))
    decreases |events|
  {
    if events != [] {
      RunOk(s, events[..|events| - 1]);
      NextOk(Run(s, events[..|events| - 1]), events[|events| - 1]);
    }
  }

  // ---- the theorems ----

  /** In every reachable state a cached expiry is never earlier than the stored one and exceeds it by at
      most the clock advance between the two readings of the write; a persistent key is cached as
      persistent. Holds while the TTL does not overflow, which is what `max_ttl_seconds` is for. */
  lemma BoundedExpiryDrift(rows: Table, clock: int, events: seq<Event>, k: string)
    requires k in Run(Init(rows, clock), events).cache
    ensures DriftBounded(Run(Init(rows, clock), events), k)
  {
    InitOk(rows, clock);
    RunOk(Init(rows, clock), events);
    KeyDrift(Run(Init(rows, clock), events), k);
  }

  ghost predicate DriftBounded(s: State, k: string)
    requires k in s.cache
  {
    && Hist(s, k) != []
    && var c := Hist(s, k)[|Hist(s, k)| - 1];
    && c.slot.Some?
    && (InI64(c.wroteAt) && (c.ttl.Some? ==> InI64(c.cachedAt + c.ttl.value)) ==>
        && (s.cache[k].expires.None? <==> c.slot.value.expires.None?)
        && (s.cache[k].expires.Some? ==>
              0 <= s.cache[k].expires.value - c.slot.value.expires.value <= c.cachedAt - c.wroteAt))
    && (Committed(s, k) == c.slot || (Committed(s, k).None? && IsExpired(c.slot.value.expires, s.clock)))
  }

  lemma KeyDrift(s: State, k: string)
    requires Inv(s) && k in s.cache
    ensures DriftBounded(s, k)
  {
    assert KeyOk(s, k);
  }

  /** Histories only grow. */
  lemma HistoryGrows(s: State, e: Event, k: string)
    ensures Hist(s, k) <= Hist(Next(s, e), k)
  {
  }

  /** A step answers at most one GET. */
  lemma RepliesGrow(s: State, e: Event)
    ensures s.replies <= Next(s, e).replies && |Next(s, e).replies| <= |s.replies| + 1
  {
  }

  // ---- from the beginning of a GET to its answer ----

  function StateAt(s: State, events: seq<Event>, n: nat): State
    requires n <= |events|
  {
    Run(s, events[..n])
  }

  lemma StepAt(s: State, events: seq<Event>, n: nat)
    requires n < |events|
    ensures StateAt(s, events, n + 1) == Next(StateAt(s, events, n), events[n])
  {
    assert events[..n + 1][..n] == events[..n];
  }

  /** What later states keep of earlier ones. */
  ghost predicate Extends(s: State, n: State, k: string) {
    s.clock <= n.clock && s.replies <= n.replies && Hist(s, k) <= Hist(n, k)
  }

  lemma ExtendsNext(s: State, e: Event, k: string)
    ensures Extends(s, Next(s, e), k)
  {
    HistoryGrows(s, e, k);
    RepliesGrow(s, e);
  }

  lemma {:induction false} ExtendsBetween(s: State, events: seq<Event>, a: nat, b: nat, k: string)
    requires a <= b <= |events|
    ensures Extends(StateAt(s, events, a), StateAt(s, events, b), k)
    decreases b
  {
    if a < b {
      ExtendsBetween(s, events, a, b - 1, k);
      StepAt(s, events, b - 1);
      ExtendsNext(StateAt(s, events, b - 1), events[b - 1], k);
    }
  }

  predicate InGet(pc: Pc) { pc.Reading? || pc.Stale? || pc.Waiting? || pc.Filling? }

  /** Thread `t` began a GET of `k` with event `j` and is still at it after `n` events. */
  ghost predicate Spans(s: State, events: seq<Event>, t: nat, k: string, j: nat, n: nat) {
    && j < n <= |events| && events[j] == BeginGet(t, k) && PcOf(StateAt(s, events, j), t).Idle?
    && forall x :: j < x <= n ==> !PcOf(StateAt(s, events, x), t).Idle?
  }

  /** A thread in a GET was in it before the step, or the step began it. */
  lemma PcStep(s: State, e: Event, t: nat)
    requires InGet(PcOf(Next(s, e), t))
    ensures var pc, n := PcOf(s, t), PcOf(Next(s, e), t);
            || (InGet(pc) && n.key == pc.key && n.since == pc.since && (n == pc || !n.Reading?)
                && (n.Filling? && n != pc ==> n.seen == s.clock))
            || (pc.Idle? && e == BeginGet(t, n.key) && n == Reading(n.key, s.clock, |Hist(s, n.key)|))
  {
  }

  /** The clock reading a thread has taken so far for its GET lies between two given readings. */
  predicate ClockIn(pc: Pc, lo: int, hi: int) {
    (pc.Reading? ==> lo <= pc.now <= hi) && (pc.Filling? ==> lo <= pc.seen <= hi)
  }

  lemma {:induction false} PcBegan(s: State, events: seq<Event>, n: nat, t: nat) returns (j: nat)
    requires n <= |events| && s.threads == map[] && InGet(PcOf(StateAt(s, events, n), t))
    ensures var pc := PcOf(StateAt(s, events, n), t);
            && Spans(s, events, t, pc.key, j, n) && pc.since == |Hist(StateAt(s, events, j), pc.key)|
            && ClockIn(pc, StateAt(s, events, j).clock, StateAt(s, events, n).clock)
    decreases n
  {
    assert n > 0;
    var a, e := StateAt(s, events, n - 1), events[n - 1];
    StepAt(s, events, n - 1);
    PcStep(a, e, t);
    ExtendsBetween(s, events, n - 1, n, "");
    if InGet(PcOf(a, t)) {
      j := PcBegan(s, events, n - 1, t);
      ExtendsBetween(s, events, j, n - 1, "");
      SpansOn(s, events, t, PcOf(a, t).key, j, n);
    } else {
      j := n - 1;
    }
  }

  lemma SpansOn(s: State, events: seq<Event>, t: nat, k: string, j: nat, n: nat)
    requires 0 < n <= |events| && Spans(s, events, t, k, j, n - 1) && !PcOf(StateAt(s, events, n), t).Idle?
    ensures Spans(s, events, t, k, j, n)
  {
  }

  /** An answer is that of the thread's GET, given after the writes so far. */
  lemma ReplyStep(s: State, e: Event)
    requires |s.replies| < |Next(s, e).replies|
    ensures var r := Next(s, e).replies[|s.replies|];
            && InGet(PcOf(s, r.thread)) && r.key == PcOf(s, r.thread).key
            && r.since == PcOf(s, r.thread).since && r.at == |Hist(s, r.key)|
            && (forall lo :: lo <= s.clock && ClockIn(PcOf(s, r.thread), lo, s.clock) ==> lo <= r.clock <= s.clock)
  {
  }

  lemma OneAnswerAtMost(s: State, events: seq<Event>, n: nat)
    requires n < |events|
    ensures |StateAt(s, events, n + 1).replies| <= |StateAt(s, events, n).replies| + 1
  {
    StepAt(s, events, n);
    RepliesGrow(StateAt(s, events, n), events[n]);
  }

  lemma {:induction false} AnsweredAt(s: State, events: seq<Event>, n: nat, i: nat) returns (m: nat)
    requires n <= |events| && s.replies == [] && i < |StateAt(s, events, n).replies|
    ensures m < n && |StateAt(s, events, m).replies| == i && i < |StateAt(s, events, m + 1).replies|
    decreases n
  {
    assert n > 0;
    OneAnswerAtMost(s, events, n - 1);
    if i < |StateAt(s, events, n - 1).replies| {
      m := AnsweredAt(s, events, n - 1, i);
    } else {
      m := n - 1;
    }
  }

  /** Answer `i` is given by event `m` to the GET that event `j` began. It is explained by the writes up to an
      instant between the two, judging expiry by a clock reading between the two. */
  ghost predicate LinearizedIn(s: State, events: seq<Event>, i: nat, j: nat, m: nat)
    requires i < |Run(s, events).replies| && m < |events|
  {
    var r := Run(s, events).replies[i];
    && |StateAt(s, events, m).replies| == i < |StateAt(s, events, m + 1).replies|
    && Spans(s, events, r.thread, r.key, j, m)
    && |Hist(StateAt(s, events, j), r.key)| <= r.at <= |Hist(StateAt(s, events, m), r.key)|
    && StateAt(s, events, j).clock <= r.clock <= StateAt(s, events, m).clock
    && Explains(Hist(StateAt(s, events, m), r.key)[..r.at], r.outcome, r.clock)
  }

  /** Every GET of every interleaving returns what the writes up to some instant inside the GET explain, with their
      expiry judged by a clock reading taken inside the GET. */
  lemma ReadsAreLinearizable(rows: Table, clock: int, events: seq<Event>, i: nat) returns (j: nat, m: nat)
    requires i < |Run(Init(rows, clock), events).replies|
    ensures m < |events| && LinearizedIn(Init(rows, clock), events, i, j, m)
  {
    var s0 := Init(rows, clock);
    assert events[..|events|] == events;
    m := AnsweredAt(s0, events, |events|, i);
    j := AnswerOfGet(s0, events, i, m);
    InitOk(rows, clock);
    RunOk(s0, events);
    ExplainedAt(s0, events, i, m);
  }

  lemma AnswerOfGet(s: State, events: seq<Event>, i: nat, m: nat) returns (j: nat)
    requires s.threads == map[] && m < |events| && i < |Run(s, events).replies|
    requires |StateAt(s, events, m).replies| == i < |StateAt(s, events, m + 1).replies|
    ensures var r := Run(s, events).replies[i];
            && Spans(s, events, r.thread, r.key, j, m) && r.at == |Hist(StateAt(s, events, m), r.key)|
            && |Hist(StateAt(s, events, j), r.key)| <= r.at
            && StateAt(s, events, j).clock <= r.clock <= StateAt(s, events, m).clock
  {
    var a := StateAt(s, events, m);
    StepAt(s, events, m);
    ReplyStep(a, events[m]);
    var r := StateAt(s, events, m + 1).replies[i];
    SameAnswer(s, events, i, m);
    j := PcBegan(s, events, m, r.thread);
    ExtendsBetween(s, events, j, m, r.key);
  }

  lemma SameAnswer(s: State, events: seq<Event>, i: nat, m: nat)
    requires m < |events| && i < |StateAt(s, events, m + 1).replies|
    ensures i < |Run(s, events).replies| && Run(s, events).replies[i] == StateAt(s, events, m + 1).replies[i]
  {
    assert events[..|events|] == events;
    ExtendsBetween(s, events, m + 1, |events|, "");
  }

  lemma ExplainedAt(s: State, events: seq<Event>, i: nat, m: nat)
    requires Inv(Run(s, events)) && m < |events| && i < |Run(s, events).replies|
    requires Run(s, events).replies[i].at <= |Hist(StateAt(s, events, m), Run(s, events).replies[i].key)|
    ensures var r := Run(s, events).replies[i];
            Explains(Hist(StateAt(s, events, m), r.key)[..r.at], r.outcome, r.clock)
  {
    var r := Run(s, events).replies[i];
    assert ReadOk(Run(s, events), r);
    assert events[..|events|] == events;
    ExtendsBetween(s, events, m, |events|, r.key);
    assert Hist(StateAt(s, events, m), r.key)[..r.at] == Hist(Run(s, events), r.key)[..r.at];
  }

  /** Once a write has returned, no GET begun later sees an older value: it is explained by a history
      that includes every write that had taken effect on the key when it began, and judges expiry by a clock
      reading taken since. */
  lemma NoOlderValueAfterReturn(rows: Table, clock: int, before: seq<Event>, after: seq<Event>, t: nat, i: nat)
    requires PcOf(Run(Init(rows, clock), before), t).Idle?
    requires |Run(Init(rows, clock), before).replies| <= i < |Run(Init(rows, clock), before + after).replies|
    requires Run(Init(rows, clock), before + after).replies[i].thread == t
    ensures var mid, s := Run(Init(rows, clock), before), Run(Init(rows, clock), before + after);
            var r := s.replies[i];
            |Hist(mid, r.key)| <= r.at && mid.clock <= r.clock <= s.clock && ReadOk(s, r)
  {
    var s0, events, n := Init(rows, clock), before + after, |before|;
    var r := Run(s0, events).replies[i];
    var j, m := ReadsAreLinearizable(rows, clock, events, i);
    assert events[..n] == before && events[..|events|] == events;
    BegunAfter(s0, events, i, j, m, n);
    ExtendsBetween(s0, events, n, j, r.key);
    ExtendsBetween(s0, events, m, |events|, r.key);
    InitOk(rows, clock);
    RunOk(s0, events);
  }

  /** A GET answered after its thread was idle began after that. */
  lemma BegunAfter(s: State, events: seq<Event>, i: nat, j: nat, m: nat, n: nat)
    requires n <= |events| && m < |events| && i < |Run(s, events).replies| && LinearizedIn(s, events, i, j, m)
    requires |StateAt(s, events, n).replies| <= i && PcOf(StateAt(s, events, n), Run(s, events).replies[i].thread).Idle?
    ensures n <= j
  {
    UnansweredBefore(s, events, i, m, n);
  }

  lemma UnansweredBefore(s: State, events: seq<Event>, i: nat, m: nat, n: nat)
    requires n <= |events| && m < |events| && i < |StateAt(s, events, m + 1).replies|
    requires |StateAt(s, events, n).replies| <= i
    ensures n <= m
  {
    if m < n {
      ExtendsBetween(s, events, m + 1, n, "");
      assert false;
    }
  }
}
