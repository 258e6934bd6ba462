/** What the writes of the interleaved KV layer do: they are the uncached table's steps, a committed write leaves what
    was asked for, and a GET it explains shows exactly that. */
module KvWrites {
  import opened Base
  import opened Ttl
  import Decimal
  import opened KvRow
  import opened KvTable
  import opened KvNode
  import opened KvConcurrent
  import KvRuns

  // ---- every step on the table is a step of the uncached table ----

  function OpOf(k: string, w: Write): KvRuns.Op {
    match w
    case SetOp(v, ttl, nx, xx) => KvRuns.Set(k, v, ttl, nx, xx)
    case DelOp => KvRuns.Del(k)
    case ExpireOp(ttl) => KvRuns.Expire(k, ttl)
    case IncrOp(d, ttl) => KvRuns.Incr(k, d, ttl)
  }

  /** The answer tells the client that the write took place. */
  predicate SaysYes(a: KvRuns.Answer) { a == KvRuns.Flag(Ok(true)) || (a.Count? && a.count.Ok?) }

  predicate CanStart(s: State, t: nat) { PcOf(s, t).Idle? && s.holder.None? }

  lemma StoreSame(rows: Table, k: string)
    ensures Store(rows, k, SlotOf(rows, k)) == rows
  {
  }

  /** A write does to the table what the uncached operation does, and goes on to the cache exactly when that operation
      answers yes. */
  lemma WriteIsPlain(s: State, t: nat, k: string, w: Write) returns (answer: KvRuns.Answer)
    requires CanStart(s, t)
    ensures var n := Next(s, StoreWrite(t, k, w));
            && KvRuns.PlainStep(s.rows, KvRuns.At(s.clock, OpOf(k, w)), n.rows, answer)
            && (SaysYes(answer) <==> PcOf(n, t) == Storing(k, w, SlotOf(s.rows, k), s.clock))
            && (!SaysYes(answer) ==> n == s)
  {
    var slot := SlotOf(s.rows, k);
    StoreSame(s.rows, k);
    assert Next(s, StoreWrite(t, k, w)) == DoStoreWrite(s, t, k, w);
    match w
    case SetOp(_, _, nx, xx) =>
      answer := KvRuns.Flag(if k == "" then Err(InvalidRequest) else Ok(SetWrites(slot, nx, xx)));
    case DelOp => answer := KvRuns.Flag(Ok(slot.Some?));
    case ExpireOp(_) => answer := KvRuns.Flag(Ok(Live(slot, s.clock)));
    case IncrOp(d, _) => answer := KvRuns.Count(if k == "" then Err(InvalidRequest) else IncrAnswer(slot, d, s.clock));
  }

  /** A read under the mutex does to the table what the uncached GET does. */
  lemma LockedReadIsPlain(s: State, t: nat)
    requires PcOf(s, t).Waiting? && s.holder.None?
    ensures var n, k := Next(s, LockedRead(t)), PcOf(s, t).key;
            KvRuns.PlainStep(s.rows, KvRuns.At(s.clock, KvRuns.Get(k)), n.rows,
                             KvRuns.Got(GetAnswer(SlotOf(s.rows, k), s.clock)))
  {
    StoreSame(s.rows, PcOf(s, t).key);
    assert Next(s, LockedRead(t)) == DoLockedRead(s, t);
  }

  lemma GcIsPlain(s: State, picked: set<string>)
    requires s.holder.None?
    ensures KvRuns.PlainStep(s.rows, KvRuns.At(s.clock, KvRuns.Gc(picked)), Next(s, Gc(picked)).rows, KvRuns.Silent)
  {
  }

  // ---- what a write leaves ----

  /** The number a live row holds; nothing there counts as 0. */
  function CountIn(slot: Slot, now: int): int {
    if Live(slot, now) && slot.value.value.Text? && Decimal.ParseI64(slot.value.value.text).Some?
    then Decimal.ParseI64(slot.value.value.text).value else 0
  }

  /** The value a write puts under its key, unless it removes it. */
  function Written(w: Write, before: Slot, at: int): Option<Blob> {
    match w
    case SetOp(v, _, _, _) => Some(Text(v))
    case DelOp => None
    case ExpireOp(_) => if before.Some? then Some(before.value.value) else None
    case IncrOp(d, _) => Some(Text(Decimal.PrintInt(CountIn(before, at) + d)))
  }

  function ExpiryLeft(w: Write, before: Slot, at: int): Option<int> {
    match w
    case SetOp(_, ttl, _, _) => ExpiresAt(ttl, at)
    case DelOp => None
    case ExpireOp(ttl) => ExpiresAt(ttl, at)
    case IncrOp(_, ttl) => if ttl.None? && Live(before, at) then before.value.expires else ExpiresAt(ttl, at)
  }

  /** The row after the write is what the writer asked for. */
  predicate Leaves(w: Write, before: Slot, at: int, after: Slot) {
    match Written(w, before, at)
    case None => after.None?
    case Some(value) =>
      after.Some? && after.value.value == value && after.value.expires == ExpiryLeft(w, before, at)
  }

  lemma EffectLeaves(w: Write, k: string, before: Slot, at: int)
    requires Takes(w, k, before, at)
    ensures Leaves(w, before, at, Effect(w, before, at))
  {
  }

  /** A thread in the middle of a write began it with an event that still says what it writes. */
  lemma {:induction false} WriteBegan(s: State, events: seq<Event>, n: nat, t: nat) returns (j: nat)
    requires n <= |events| && s.threads == map[] && PcOf(StateAt(s, events, n), t).Storing?
    ensures var pc := PcOf(StateAt(s, events, n), t);
            && j < n && events[j] == StoreWrite(t, pc.key, pc.w)
            && pc.before == SlotOf(StateAt(s, events, j).rows, pc.key) && pc.wroteAt == StateAt(s, events, j).clock
    decreases n
  {
    assert n > 0;
    StepAt(s, events, n - 1);
    StoringStep(StateAt(s, events, n - 1), events[n - 1], t);
    if PcOf(StateAt(s, events, n - 1), t).Storing? {
      j := WriteBegan(s, events, n - 1, t);
    } else {
      j := n - 1;
    }
  }

  lemma StoringStep(s: State, e: Event, t: nat)
    requires PcOf(Next(s, e), t).Storing?
    ensures var pc := PcOf(Next(s, e), t);
            || pc == PcOf(s, t)
            || (!PcOf(s, t).Storing? && e == StoreWrite(t, pc.key, pc.w)
                && pc.before == SlotOf(s.rows, pc.key) && pc.wroteAt == s.clock)
  {
  }

  /** Event `m` finishes the write of `w` to `k` that event `j` began: it adds one write to the history of `k`, and
      that write leaves what was asked for. */
  ghost predicate Finishes(s: State, events: seq<Event>, j: nat, m: nat, t: nat, k: string, w: Write)
    requires j < m < |events|
  {
    var a, before, after := StateAt(s, events, j), StateAt(s, events, m), StateAt(s, events, m + 1);
    && events[j] == StoreWrite(t, k, w) && events[m] == FinishWrite(t)
    && |Hist(after, k)| == |Hist(before, k)| + 1 && Hist(before, k) <= Hist(after, k)
    && var c := Hist(after, k)[|Hist(before, k)|];
    && c.wroteAt == a.clock && c.cachedAt == before.clock && Leaves(w, SlotOf(a.rows, k), a.clock, c.slot)
  }

  /** Event `m` is the last step of a write of `w` to `k` by `t`. */
  predicate AtFinish(s: State, events: seq<Event>, m: nat, t: nat, k: string, w: Write) {
    && m < |events| && events[m] == FinishWrite(t)
    && var pc := PcOf(StateAt(s, events, m), t); pc.Storing? && pc.key == k && pc.w == w
  }

  /** In every interleaving, a write that is finished leaves what its caller asked for, judged by the row and the clock
      at the moment it got the mutex. */
  lemma CommitsWhatWasAsked(rows: Table, clock: int, events: seq<Event>, m: nat, t: nat, k: string, w: Write)
    returns (j: nat)
    requires AtFinish(Init(rows, clock), events, m, t, k, w)
    ensures j < m && Finishes(Init(rows, clock), events, j, m, t, k, w)
  {
    var s0 := Init(rows, clock);
    var s := StateAt(s0, events, m);
    var pc := PcOf(s, t);
    j := WriteBegan(s0, events, m, t);
    InitOk(rows, clock);
    RunOk(s0, events[..m]);
    assert ThreadOk(s, t);
    EffectLeaves(w, k, pc.before, pc.wroteAt);
    StepAt(s0, events, m);
    assert Next(s, FinishWrite(t)) == DoFinishWrite(s, t);
  }

  // ---- what a GET then shows ----

  /** After DEL a GET finds nothing. After the others it finds the value, or nothing once the expiry has passed. */
  predicate Shows(w: Write, before: Slot, at: int, outcome: Outcome, clock: int) {
    match Written(w, before, at)
    case None => outcome == Missing
    case Some(value) =>
      if outcome == Missing then IsExpired(ExpiryLeft(w, before, at), clock)
      else outcome == if value.Text? then Found(value.text) else Corrupt
  }

  lemma ExplainedShows(h: seq<Commit>, w: Write, before: Slot, at: int, outcome: Outcome, clock: int)
    requires h != [] && Leaves(w, before, at, h[|h| - 1].slot) && Explains(h, outcome, clock)
    ensures Shows(w, before, at, outcome, clock)
  {
  }

  lemma ExplainedAsOf(rows: Table, clock: int, events: seq<Event>, n: nat, i: nat)
    requires n <= |events| && i < |Run(Init(rows, clock), events).replies|
    requires var r := Run(Init(rows, clock), events).replies[i];
             r.at == |Hist(StateAt(Init(rows, clock), events, n), r.key)|
    ensures var r := Run(Init(rows, clock), events).replies[i];
            Explains(Hist(StateAt(Init(rows, clock), events, n), r.key), r.outcome, r.clock)
  {
    var s0 := Init(rows, clock);
    var r := Run(s0, events).replies[i];
    InitOk(rows, clock);
    RunOk(s0, events);
    assert ReadOk(Run(s0, events), r);
    assert events[..|events|] == events;
    ExtendsBetween(s0, events, n, |events|, r.key);
    assert Hist(Run(s0, events), r.key)[..r.at] == Hist(StateAt(s0, events, n), r.key);
  }

  /** In every interleaving, a GET that is answered as of the moment after a finished write, before the next write of
      the key, shows that write. */
  lemma ReadShowsLastWrite(rows: Table, clock: int, events: seq<Event>, m: nat, t: nat, k: string, w: Write, i: nat)
    returns (j: nat)
    requires AtFinish(Init(rows, clock), events, m, t, k, w) && i < |Run(Init(rows, clock), events).replies|
    requires var r := Run(Init(rows, clock), events).replies[i];
             r.key == k && r.at == |Hist(StateAt(Init(rows, clock), events, m + 1), k)|
    ensures j < m && Finishes(Init(rows, clock), events, j, m, t, k, w)
    ensures var r, a := Run(Init(rows, clock), events).replies[i], StateAt(Init(rows, clock), events, j);
            Shows(w, SlotOf(a.rows, k), a.clock, r.outcome, r.clock)
  {
    j := CommitsWhatWasAsked(rows, clock, events, m, t, k, w);
    ExplainedAsOf(rows, clock, events, m + 1, i);
    var r, a := Run(Init(rows, clock), events).replies[i], StateAt(Init(rows, clock), events, j);
    var h := Hist(StateAt(Init(rows, clock), events, m + 1), k);
    ExplainedShows(h, w, SlotOf(a.rows, k), a.clock, r.outcome, r.clock);
  }

  // ---- a call that nobody disturbs comes to its end ----

  /** The states of a GET by `t` alone: its first step, the probe, the removal of a stale entry, the read under the
      mutex, the refill. */
  function AfterProbe(s: State, t: nat, k: string): State { Next(Next(s, BeginGet(t, k)), Probe(t)) }

  function AfterGet(s: State, t: nat, k: string): State {
    Next(Next(Next(AfterProbe(s, t, k), DropStale(t)), LockedRead(t)), Fill(t))
  }

  /** The GET by `t` was answered at clock reading `clock`; nothing else happened that another thread could see, except
      to the cache and to an expired row. */
  predicate Answered(s: State, n: State, t: nat, k: string) {
    && CanStart(n, t) && n.history == s.history && n.clock == s.clock && |n.replies| == |s.replies| + 1
    && n.replies[..|s.replies|] == s.replies
    && var r := n.replies[|s.replies|];
    && r.thread == t && r.key == k && r.at == |Hist(s, k)| && r.clock == s.clock
  }

  lemma WaitingAnswers(s: State, a: State, t: nat, k: string)
    requires PcOf(a, t) == Waiting(k, |Hist(s, k)|) && a.holder.None? && a.history == s.history && a.clock == s.clock
    requires a.replies == s.replies
    ensures Answered(s, Next(Next(a, LockedRead(t)), Fill(t)), t, k)
  {
    var b := DoLockedRead(a, t);
    assert Next(a, LockedRead(t)) == b;
    if PcOf(b, t).Filling? {
      assert Next(b, Fill(t)) == DoFill(b, t);
    } else {
      assert Next(b, Fill(t)) == b;
    }
  }

  lemma IdleStays(s: State, t: nat)
    requires PcOf(s, t).Idle?
    ensures Next(s, DropStale(t)) == s && Next(s, LockedRead(t)) == s && Next(s, Fill(t)) == s
  {
  }

  lemma ProbeAnswers(s: State, t: nat, k: string)
    requires CanStart(s, t) && PcOf(AfterProbe(s, t, k), t).Idle?
    ensures Answered(s, AfterProbe(s, t, k), t, k)
  {
    var b := Goto(s, t, Reading(k, s.clock, |Hist(s, k)|));
    assert Next(s, BeginGet(t, k)) == b && AfterProbe(s, t, k) == DoProbe(b, t);
  }

  /** Whatever the cache holds, a GET that runs alone is answered, as of the writes and the clock it began with. */
  lemma GetIsAnswered(s: State, t: nat, k: string)
    requires CanStart(s, t)
    ensures Answered(s, AfterGet(s, t, k), t, k)
  {
    var b := Goto(s, t, Reading(k, s.clock, |Hist(s, k)|));
    assert Next(s, BeginGet(t, k)) == b;
    var a := DoProbe(b, t);
    assert AfterProbe(s, t, k) == a;
    if PcOf(a, t).Idle? {
      ProbeAnswers(s, t, k);
      IdleStays(a, t);
    } else if PcOf(a, t).Waiting? {
      assert Next(a, DropStale(t)) == a;
      WaitingAnswers(s, a, t, k);
    } else {
      WaitingAnswers(s, Next(a, DropStale(t)), t, k);
    }
  }

  function AfterWrite(s: State, t: nat, k: string, w: Write): State {
    Next(Next(s, StoreWrite(t, k, w)), FinishWrite(t))
  }

  lemma WriteIsFinished(s: State, t: nat, k: string, w: Write)
    requires Inv(s) && CanStart(s, t) && Takes(w, k, SlotOf(s.rows, k), s.clock)
    ensures var n := AfterWrite(s, t, k, w);
            && Inv(n) && CanStart(n, t) && n.clock == s.clock && |Hist(n, k)| == |Hist(s, k)| + 1
            && Leaves(w, SlotOf(s.rows, k), s.clock, Hist(n, k)[|Hist(s, k)|].slot)
  {
    var a := DoStoreWrite(s, t, k, w);
    assert Next(s, StoreWrite(t, k, w)) == a;
    EffectLeaves(w, k, SlotOf(s.rows, k), s.clock);
    assert Next(a, FinishWrite(t)) == DoFinishWrite(a, t);
    NextOk(s, StoreWrite(t, k, w));
    NextOk(a, FinishWrite(t));
  }

  lemma GetKeepsInv(s: State, t: nat, k: string)
    requires Inv(s)
    ensures Inv(AfterGet(s, t, k))
  {
    var a := Next(s, BeginGet(t, k));
    NextOk(s, BeginGet(t, k));
    NextOk(a, Probe(t));
    var b := AfterProbe(s, t, k);
    NextOk(b, DropStale(t));
    NextOk(Next(b, DropStale(t)), LockedRead(t));
    NextOk(Next(Next(b, DropStale(t)), LockedRead(t)), Fill(t));
  }

  /** From every reachable state with the mutex free: a write that takes place, followed by a GET of the same key, is
      answered with what was written, whatever the cache held before. */
  lemma WriteThenGet(rows: Table, clock: int, events: seq<Event>, t: nat, k: string, w: Write)
    requires var s := Run(Init(rows, clock), events); CanStart(s, t) && Takes(w, k, SlotOf(s.rows, k), s.clock)
    ensures var s := Run(Init(rows, clock), events);
            var n := AfterGet(AfterWrite(s, t, k, w), t, k);
            && |n.replies| > 0
            && var r := n.replies[|n.replies| - 1];
            && r.thread == t && r.key == k && Shows(w, SlotOf(s.rows, k), s.clock, r.outcome, s.clock)
  {
    var s := Run(Init(rows, clock), events);
    InitOk(rows, clock);
    RunOk(Init(rows, clock), events);
    WriteIsFinished(s, t, k, w);
    var a := AfterWrite(s, t, k, w);
    GetIsAnswered(a, t, k);
    GetKeepsInv(a, t, k);
    AnsweredShows(a, AfterGet(a, t, k), t, k, w, SlotOf(s.rows, k), s.clock);
  }

  lemma AnsweredShows(a: State, n: State, t: nat, k: string, w: Write, before: Slot, at: int)
    requires Inv(n) && Answered(a, n, t, k)
    requires Hist(a, k) != [] && Leaves(w, before, at, Hist(a, k)[|Hist(a, k)| - 1].slot)
    ensures Shows(w, before, at, n.replies[|a.replies|].outcome, a.clock)
  {
    var r := n.replies[|a.replies|];
    assert ReadOk(n, r);
    assert Hist(n, k)[..r.at] == Hist(a, k);
    ExplainedShows(Hist(a, k), w, before, at, r.outcome, r.clock);
  }
}
