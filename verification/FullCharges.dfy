/** What a tenant is charged when nothing goes wrong: runs do not fail, entries are not refused and flushes are not
    late. Then every completed window is charged once and in full. */
module FullCharges {
  import opened Base
  import opened Usage
  import opened Rating
  import opened Ledger
  import opened Settlement
  import opened Charges
  import Metering

  /** What is followed: one metric of one tenant, its price and the references of its charges. */
  datatype Line = Line(tenant: TenantId, metric: Metric, rate: nat -> int, ref: int -> string)

  ghost predicate Follows(q: Line, p: Pricing) {
    && (forall u: nat :: q.rate(u) == RateOf(p, q.metric, u))
    && (forall last :: q.ref(last) == UsageRef(q.tenant, q.metric, last, p.version))
  }

  function LineOf(p: Pricing, t: TenantId, m: Metric): Line {
    Line(t, m, (u: nat) => RateOf(p, m, u), last => UsageRef(t, m, last, p.version))
  }

  ghost function UsageIn(q: Line, stored: Amounts, w: Window): nat {
    WindowTotal(stored, q.tenant, q.metric, w.lo, w.hi)
  }

  /** What the windows cover, window by window. */
  ghost function Slices(q: Line, stored: Amounts, windows: seq<Window>): seq<nat> {
    seq(|windows|, i requires 0 <= i < |windows| => UsageIn(q, stored, windows[i]))
  }

  /** The price of each slice, added up. */
  function Owed(rate: nat -> int, slices: seq<nat>): int {
    if slices == [] then 0 else Owed(rate, slices[..|slices| - 1]) + rate(slices[|slices| - 1])
  }

  lemma OwedSnoc(rate: nat -> int, slices: seq<nat>, x: nat)
    ensures Owed(rate, slices + [x]) == Owed(rate, slices) + rate(x)
  {
    assert (slices + [x])[..|slices|] == slices;
  }

  lemma SlicesSnoc(q: Line, stored: Amounts, windows: seq<Window>, w: Window)
    ensures Slices(q, stored, windows + [w]) == Slices(q, stored, windows) + [UsageIn(q, stored, w)]
    ensures Sum(Slices(q, stored, windows + [w])) == Sum(Slices(q, stored, windows)) + UsageIn(q, stored, w)
  {
    var slices := Slices(q, stored, windows);
    assert Slices(q, stored, windows + [w]) == slices + [UsageIn(q, stored, w)];
    assert (slices + [UsageIn(q, stored, w)])[..|slices|] == slices;
  }

  // ---- when nothing goes wrong ----

  /** The minutes before this are settled or being settled. */
  function ClosedBefore(s: System): int { if s.phase.Resting? then s.watermark else s.phase.cur }

  /** The store takes usage of the followed tenant and metric for a minute before `limit`. */
  predicate StoresLate(q: Line, s: Metering.Meter, e: Metering.Event, limit: int) {
    && e.Settle? && e.i < |s.batch| && !e.reply.Refused?
    && s.batch[e.i].key.tenant == q.tenant && s.batch[e.i].key.metric == q.metric && s.batch[e.i].key.bucket < limit
  }

  /** No run fails or leaves the tenant out, none begins in the first minute of 1970, no entry of the tenant's is
      refused, no usage is stored for a minute already closed, and no other entry takes the reference of a charge. */
  ghost predicate Prompt(q: Line, s: System, e: Event) {
    match e
    case Metered(x) => !StoresLate(q, s.meter, x, ClosedBefore(s))
    case Begin(tenants) => q.tenant in tenants && BUCKET_SECS <= s.clock
    case ChargeMetric(metric, ok, _) => s.phase.Charging? && s.phase.tenant == q.tenant && metric == q.metric ==> ok
    case Fail => false
    case Other(op) => op.DoAppend? ==> forall last :: op.txn.reference != Some(q.ref(last))
    case _ => true
  }

  ghost predicate PromptRun(q: Line, p: Pricing, s: System, events: seq<Event>) {
    forall i :: 0 <= i < |events| ==> Prompt(q, Run(p, s, events[..i]), events[i])
  }

  lemma PromptPrefix(q: Line, p: Pricing, s: System, events: seq<Event>)
    requires PromptRun(q, p, s, events) && events != []
    ensures PromptRun(q, p, s, events[..|events| - 1])
    ensures Prompt(q, Run(p, s, events[..|events| - 1]), events[|events| - 1])
  {
    var init := events[..|events| - 1];
    forall i | 0 <= i < |init| ensures Prompt(q, Run(p, s, init[..i]), init[i]) {
      assert init[..i] == events[..i] && Prompt(q, Run(p, s, events[..i]), events[i]);
    }
  }

  // ---- completed windows follow each other, on minutes ----

  predicate Chained(windows: seq<Window>) {
    && (forall i :: 0 <= i < |windows| ==> windows[i].lo <= windows[i].hi && windows[i].hi % BUCKET_SECS == 0)
    && (forall i :: 0 < i < |windows| ==> windows[i].lo == windows[i - 1].hi + BUCKET_SECS)
  }

  predicate PhaseOnTrack(ph: Phase, watermark: int) {
    !ph.Resting? ==>
      0 < ph.cur && ph.cur % BUCKET_SECS == 0 && ph.last == LastBucket(watermark, ph.cur) && ph.last < ph.cur
  }

  predicate OnTrack(s: System) {
    && Chained(s.completed) && s.watermark % BUCKET_SECS == 0
    && s.watermark == (if s.completed == [] then 0 else s.completed[|s.completed| - 1].hi + BUCKET_SECS)
    && (s.completed != [] ==> 0 < s.watermark)
    && PhaseOnTrack(s.phase, s.watermark)
  }

  lemma ChainedSnoc(windows: seq<Window>, w: Window)
    requires Chained(windows) && w.lo <= w.hi && w.hi % BUCKET_SECS == 0
    requires windows != [] ==> w.lo == windows[|windows| - 1].hi + BUCKET_SECS
    ensures Chained(windows + [w])
  {
  }

  /** Every completed window ends before the minutes that are still open. */
  lemma {:induction false} CompletedAreClosed(s: System, i: nat)
    requires OnTrack(s) && i < |s.completed|
    ensures s.completed[i].hi < ClosedBefore(s)
    decreases |s.completed| - i
  {
    if i + 1 < |s.completed| { CompletedAreClosed(s, i + 1); }
  }

  // ---- the invariant ----

  function WindowOf(ph: Phase): Window
    requires !ph.Resting?
  {
    Window(ph.last, ph.cur - BUCKET_SECS)
  }

  /** The usage in the window of the run that is under way. */
  ghost function Now(q: Line, s: System): nat
    requires !s.phase.Resting?
  {
    UsageIn(q, s.meter.stored, WindowOf(s.phase))
  }

  predicate Claimed(q: Line, b: Book, last: int) { q.ref(last) in b.byRef }

  /** Only windows up to the one under way have their reference taken, and then by an entry. */
  ghost predicate ClaimsOk(q: Line, b: Book, ph: Phase, watermark: int) {
    forall last :: Claimed(q, b, last) ==>
      RefKnown(b, q.ref(last)) && if ph.Resting? then last < watermark else last <= ph.last
  }

  /** The run has charged the window, or is about to charge all of it, or has yet to come to the tenant. */
  predicate Underway(q: Line, ph: Phase, now: nat, paid: bool) {
    match ph
    case Resting => true
    case Walking(_, _, todo) => q.tenant in todo || paid
    case Charging(_, _, todo, tenant, totals) =>
      if tenant == q.tenant && q.metric in totals then totals[q.metric] == now
      else (tenant != q.tenant && q.tenant in todo) || paid
  }

  /** The run under way has nothing left to charge. */
  predicate Paid(q: Line, b: Book, ph: Phase, now: nat)
    requires !ph.Resting?
  {
    q.rate(now) == 0 || Claimed(q, b, ph.last)
  }

  ghost predicate Progress(q: Line, s: System) {
    !s.phase.Resting? ==> Underway(q, s.phase, Now(q, s), Paid(q, s.book, s.phase, Now(q, s)))
  }

  ghost function CompletedPrice(q: Line, s: System): int {
    Owed(q.rate, Slices(q, s.meter.stored, s.completed))
  }

  /** What the run under way has taken. */
  ghost function NowTaken(q: Line, s: System): int {
    if !s.phase.Resting? && Claimed(q, s.book, s.phase.last) then q.rate(Now(q, s)) else 0
  }

  ghost predicate Exact(q: Line, s: System) {
    CreditsOf(s.charges, q.tenant, q.metric) == CompletedPrice(q, s) + NowTaken(q, s)
  }

  ghost predicate Full(q: Line, s: System) {
    OnTrack(s) && ClaimsOk(q, s.book, s.phase, s.watermark) && Progress(q, s) && Exact(q, s)
  }

  // ---- metering ----

  lemma {:induction false} TotalSame(keys: set<UsageKey>, a: Amounts, b: Amounts)
    requires forall k :: k in keys ==> Amount(a, k) == Amount(b, k)
    ensures Total(keys, a) == Total(keys, b)
    decreases |keys|
  {
    if keys != {} {
      var k :| k in keys;
      TotalPick(keys, a, k);
      TotalPick(keys, b, k);
      TotalSame(keys - {k}, a, b);
    }
  }

  lemma AddOutside(stored: Amounts, k: UsageKey, d: nat, t: TenantId, m: Metric, lo: int, hi: int)
    requires k.tenant == t && k.metric == m ==> hi < k.bucket
    ensures WindowTotal(Add(stored, k, d), t, m, lo, hi) == WindowTotal(stored, t, m, lo, hi)
  {
    assert KeysIn(Add(stored, k, d), t, m, lo, hi) == KeysIn(stored, t, m, lo, hi);
    TotalSame(KeysIn(stored, t, m, lo, hi), Add(stored, k, d), stored);
  }

  ghost predicate SameUsage(q: Line, a: Amounts, b: Amounts, w: Window) { UsageIn(q, a, w) == UsageIn(q, b, w) }

  /** A flush that is not late leaves a closed window as it is. */
  lemma ClosedStays(q: Line, s: Metering.Meter, x: Metering.Event, limit: int, w: Window)
    requires !StoresLate(q, s, x, limit) && w.hi < limit
    ensures SameUsage(q, Metering.Next(s, x).stored, s.stored, w)
  {
    if x.Settle? && x.i < |s.batch| && !x.reply.Refused? {
      var it := s.batch[x.i];
      assert Metering.Next(s, x).stored == Add(s.stored, it.key, it.delta);
      AddOutside(s.stored, it.key, it.delta, q.tenant, q.metric, w.lo, w.hi);
    } else {
      assert Metering.Next(s, x).stored == s.stored;
    }
  }

  lemma SlicesSame(q: Line, a: Amounts, b: Amounts, windows: seq<Window>)
    requires forall i :: 0 <= i < |windows| ==> SameUsage(q, a, b, windows[i])
    ensures Slices(q, a, windows) == Slices(q, b, windows)
  {
    forall i | 0 <= i < |windows| ensures Slices(q, a, windows)[i] == Slices(q, b, windows)[i] {
      assert SameUsage(q, a, b, windows[i]);
    }
  }

  lemma MeteredFull(q: Line, s: System, x: Metering.Event)
    requires Full(q, s) && !StoresLate(q, s.meter, x, ClosedBefore(s))
    ensures Full(q, s.(meter := Metering.Next(s.meter, x)))
  {
    var n := s.(meter := Metering.Next(s.meter, x));
    forall i | 0 <= i < |s.completed| ensures SameUsage(q, n.meter.stored, s.meter.stored, s.completed[i]) {
      CompletedAreClosed(s, i);
      ClosedStays(q, s.meter, x, ClosedBefore(s), s.completed[i]);
    }
    SlicesSame(q, n.meter.stored, s.meter.stored, s.completed);
    if !s.phase.Resting? {
      ClosedStays(q, s.meter, x, ClosedBefore(s), WindowOf(s.phase));
      assert SameUsage(q, n.meter.stored, s.meter.stored, WindowOf(s.phase));
    }
    StoredOnly(q, s, n);
  }

  lemma StoredOnly(q: Line, s: System, n: System)
    requires Full(q, s) && n == s.(meter := n.meter, clock := n.clock)
    requires Slices(q, n.meter.stored, s.completed) == Slices(q, s.meter.stored, s.completed)
    requires !s.phase.Resting? ==> Now(q, n) == Now(q, s)
    ensures Full(q, n)
  {
    assert OnTrack(n);
    assert CompletedPrice(q, n) == CompletedPrice(q, s) && NowTaken(q, n) == NowTaken(q, s);
  }

  // ---- a run from its beginning to its end ----

  /** A step within a run that moves on in its list of tenants. */
  lemma PhaseFull(q: Line, s: System, ph: Phase)
    requires Full(q, s) && !s.phase.Resting? && !ph.Resting? && ph.cur == s.phase.cur && ph.last == s.phase.last
    requires Underway(q, ph, Now(q, s), Paid(q, s.book, s.phase, Now(q, s)))
    ensures Full(q, s.(phase := ph))
  {
    var n := s.(phase := ph);
    assert OnTrack(n) && Now(q, n) == Now(q, s) && CompletedPrice(q, n) == CompletedPrice(q, s);
  }

  lemma BeginFull(q: Line, s: System, n: System)
    requires Full(q, s) && s.phase.Resting? && n == s.(phase := n.phase, reached := n.reached)
    requires n.phase.Walking? && q.tenant in n.phase.todo && PhaseOnTrack(n.phase, s.watermark)
    ensures Full(q, n)
  {
    assert s.watermark <= n.phase.last && !Claimed(q, s.book, n.phase.last);
    assert OnTrack(n) && CompletedPrice(q, n) == CompletedPrice(q, s);
  }

  /** A metric without an entry in the query's answer has no usage in the window. */
  lemma NotListed(stored: Amounts, t: TenantId, m: Metric, lo: int, hi: int)
    ensures var totals := Totals(stored, t, lo, hi);
            WindowTotal(stored, t, m, lo, hi) == if m in totals then totals[m] else 0
  {
    if m !in Totals(stored, t, lo, hi) { assert KeysIn(stored, t, m, lo, hi) == {}; }
  }

  lemma QueryFull(q: Line, s: System, totals: map<Metric, nat>)
    requires Full(q, s) && s.phase.Walking? && s.phase.todo != [] && s.phase.todo[0] == q.tenant && q.rate(0) == 0
    requires Now(q, s) == if q.metric in totals then totals[q.metric] else 0
    ensures Full(q, s.(phase := Charging(s.phase.cur, s.phase.last, s.phase.todo[1..], q.tenant, totals)))
  {
    PhaseFull(q, s, Charging(s.phase.cur, s.phase.last, s.phase.todo[1..], q.tenant, totals));
  }

  lemma QueryOtherFull(q: Line, s: System, totals: map<Metric, nat>)
    requires Full(q, s) && s.phase.Walking? && s.phase.todo != [] && s.phase.todo[0] != q.tenant
    ensures var t := s.phase.todo[0];
            Full(q, s.(phase := Charging(s.phase.cur, s.phase.last, s.phase.todo[1..], t, totals)))
  {
    assert s.phase.todo == [s.phase.todo[0]] + s.phase.todo[1..];
    PhaseFull(q, s, Charging(s.phase.cur, s.phase.last, s.phase.todo[1..], s.phase.todo[0], totals));
  }

  lemma FinishExact(q: Line, s: System, n: System)
    requires Exact(q, s) && Progress(q, s) && s.phase.Walking? && s.phase.todo == []
    requires n == s.(phase := Resting, watermark := n.watermark, completed := s.completed + [WindowOf(s.phase)])
    ensures Exact(q, n)
  {
    var slices := Slices(q, s.meter.stored, s.completed);
    SlicesSnoc(q, s.meter.stored, s.completed, WindowOf(s.phase));
    OwedSnoc(q.rate, slices, Now(q, s));
  }

  lemma FinishFull(q: Line, s: System, n: System)
    requires Full(q, s) && s.phase.Walking? && s.phase.todo == []
    requires n == s.(phase := Resting, watermark := s.phase.cur, completed := s.completed + [WindowOf(s.phase)])
    ensures Full(q, n)
  {
    ChainedSnoc(s.completed, WindowOf(s.phase));
    FinishExact(q, s, n);
  }

  // ---- charging ----

  /** Booking a charge takes the line's reference exactly if it is the line's charge. */
  lemma ClaimedAfterCharge(q: Line, p: Pricing, b: Book, ph: Phase, metric: Metric, id: nat, last: int)
    requires Follows(q, p) && ph.Charging? && metric in ph.totals
    ensures Claimed(q, Insert(b, ChargeTxn(p, ph, metric, id)), last) <==>
            Claimed(q, b, last) || (ph.tenant == q.tenant && metric == q.metric && ph.last == last)
  {
    var r := UsageRef(ph.tenant, metric, ph.last, p.version);
    assert q.ref(last) == UsageRef(q.tenant, q.metric, last, p.version);
    if r == q.ref(last) {
      UsageRefInjective(ph.tenant, metric, ph.last, p.version, q.tenant, q.metric, last, p.version);
    }
    assert Insert(b, ChargeTxn(p, ph, metric, id)).byRef == b.byRef[r := id];
  }

  lemma ClaimsAfterCharge(q: Line, p: Pricing, b: Book, ph: Phase, metric: Metric, id: nat, watermark: int)
    requires Follows(q, p) && ClaimsOk(q, b, ph, watermark) && ph.Charging? && metric in ph.totals
    ensures ClaimsOk(q, Append(b, ChargeTxn(p, ph, metric, id)), ph, watermark)
  {
    var txn := ChargeTxn(p, ph, metric, id);
    var n := Append(b, txn);
    forall last | Claimed(q, n, last) ensures RefKnown(n, q.ref(last)) && last <= ph.last {
      ClaimedAfterCharge(q, p, b, ph, metric, id, last);
      if Claimed(q, b, last) {
        RefsStay(b, DoAppend(txn), q.ref(last));
      } else {
        assert txn.reference == Some(q.ref(last));
      }
    }
  }

  /** Charging changes the book, the charges and what is left of the totals. */
  lemma ChargeFull(q: Line, s: System, n: System, metric: Metric)
    requires Full(q, s) && s.phase.Charging? && metric in s.phase.totals
    requires n == s.(phase := s.phase.(totals := s.phase.totals - {metric}), book := n.book, charges := n.charges)
    requires ClaimsOk(q, n.book, s.phase, s.watermark)
    requires s.phase.tenant == q.tenant && metric == q.metric ==> Paid(q, n.book, s.phase, Now(q, s))
    requires Claimed(q, s.book, s.phase.last) ==> Claimed(q, n.book, s.phase.last)
    requires CreditsOf(n.charges, q.tenant, q.metric) - CreditsOf(s.charges, q.tenant, q.metric)
             == if !Claimed(q, s.book, s.phase.last) && Claimed(q, n.book, s.phase.last) then q.rate(Now(q, s)) else 0
    ensures Full(q, n)
  {
    assert OnTrack(n) && Now(q, n) == Now(q, s) && CompletedPrice(q, n) == CompletedPrice(q, s);
  }

  /** The charge of another tenant or metric. */
  lemma OtherChargeFull(q: Line, p: Pricing, s: System, metric: Metric, ok: bool, id: nat)
    requires Full(q, s) && Follows(q, p) && s.phase.Charging? && metric in s.phase.totals
    requires s.phase.tenant != q.tenant || metric != q.metric
    ensures Full(q, DoCharge(p, s, metric, ok, id))
  {
    var n := DoCharge(p, s, metric, ok, id);
    if n.book != s.book {
      assert n.book == Append(s.book, ChargeTxn(p, s.phase, metric, id));
      ClaimsAfterCharge(q, p, s.book, s.phase, metric, id, s.watermark);
      ClaimedAfterCharge(q, p, s.book, s.phase, metric, id, s.phase.last);
    }
    if n.charges != s.charges { CreditsSnoc(s.charges, n.charges[|s.charges|], q.tenant, q.metric); }
    ChargeFull(q, s, n, metric);
  }

  /** What the line's own charge does, in terms of the line. */
  lemma OwnCharge(q: Line, p: Pricing, s: System, id: nat)
    requires Follows(q, p) && s.phase.Charging? && q.metric in s.phase.totals && s.phase.tenant == q.tenant
    requires !q.metric.StorageBytes? && ClaimsOk(q, s.book, s.phase, s.watermark)
    ensures var n, credits := DoCharge(p, s, q.metric, true, id), q.rate(s.phase.totals[q.metric]);
            && n == s.(phase := s.phase.(totals := s.phase.totals - {q.metric}), book := n.book, charges := n.charges)
            && if credits == 0 || Claimed(q, s.book, s.phase.last) then n.book == s.book && n.charges == s.charges
               else
                 && n.book == Append(s.book, ChargeTxn(p, s.phase, q.metric, id))
                 && Claimed(q, n.book, s.phase.last)
                 && CreditsOf(n.charges, q.tenant, q.metric) == CreditsOf(s.charges, q.tenant, q.metric) + credits
  {
    var n := DoCharge(p, s, q.metric, true, id);
    var txn := ChargeTxn(p, s.phase, q.metric, id);
    assert txn.reference == Some(q.ref(s.phase.last));
    assert Known(s.book, txn) <==> Claimed(q, s.book, s.phase.last);
    if n.charges != s.charges {
      CreditsSnoc(s.charges, n.charges[|s.charges|], q.tenant, q.metric);
      ClaimedAfterCharge(q, p, s.book, s.phase, q.metric, id, s.phase.last);
    }
  }

  lemma OwnChargeFull(q: Line, p: Pricing, s: System, id: nat)
    requires Full(q, s) && Follows(q, p) && s.phase.Charging? && q.metric in s.phase.totals
    requires s.phase.tenant == q.tenant && !q.metric.StorageBytes?
    ensures Full(q, DoCharge(p, s, q.metric, true, id))
  {
    OwnCharge(q, p, s, id);
    ClaimsAfterCharge(q, p, s.book, s.phase, q.metric, id, s.watermark);
    ChargeFull(q, s, DoCharge(p, s, q.metric, true, id), q.metric);
  }

  // ---- other ledger traffic ----

  lemma VoucherRefIsNoUsageRef(hash: string, t: TenantId, m: Metric, last: int, version: int)
    ensures VoucherRef(hash) != UsageRef(t, m, last, version)
  {
    assert VoucherRef(hash)[0] == 'v' && UsageRef(t, m, last, version)[0] == 'u';
  }

  lemma OtherClaims(q: Line, p: Pricing, b: Book, op: Op, last: int)
    requires Follows(q, p) && (op.DoAppend? ==> op.txn.reference != Some(q.ref(last)))
    ensures Claimed(q, Apply(b, op), last) <==> Claimed(q, b, last)
  {
    if op.DoRedeem? {
      assert q.ref(last) == UsageRef(q.tenant, q.metric, last, p.version);
      VoucherRefIsNoUsageRef(op.hash, q.tenant, q.metric, last, p.version);
    }
  }

  lemma BookFull(q: Line, s: System, book: Book)
    requires Full(q, s) && forall last :: Claimed(q, book, last) <==> Claimed(q, s.book, last)
    requires forall last :: Claimed(q, book, last) ==> RefKnown(book, q.ref(last))
    ensures Full(q, s.(book := book))
  {
    var n := s.(book := book);
    assert OnTrack(n) && CompletedPrice(q, n) == CompletedPrice(q, s) && NowTaken(q, n) == NowTaken(q, s);
  }

  lemma OtherFull(q: Line, p: Pricing, s: System, op: Op)
    requires Full(q, s) && Follows(q, p) && Prompt(q, s, Other(op))
    ensures Full(q, s.(book := Apply(s.book, op)))
  {
    var book := Apply(s.book, op);
    forall last ensures Claimed(q, book, last) <==> Claimed(q, s.book, last) { OtherClaims(q, p, s.book, op, last); }
    forall last | Claimed(q, book, last) ensures RefKnown(book, q.ref(last)) { RefsStay(s.book, op, q.ref(last)); }
    BookFull(q, s, book);
  }

  lemma ChargeStepFull(q: Line, p: Pricing, s: System, metric: Metric, ok: bool, id: nat)
    requires Full(q, s) && Follows(q, p) && Prompt(q, s, ChargeMetric(metric, ok, id)) && !q.metric.StorageBytes?
    requires s.phase.Charging? && metric in s.phase.totals
    ensures Full(q, DoCharge(p, s, metric, ok, id))
  {
    if s.phase.tenant == q.tenant && metric == q.metric {
      OwnChargeFull(q, p, s, id);
    } else {
      OtherChargeFull(q, p, s, metric, ok, id);
    }
  }

  lemma WalkStepFull(q: Line, p: Pricing, s: System, e: Event)
    requires Full(q, s) && q.rate(0) == 0 && Prompt(q, s, e)
    requires e.Begin? || e.Query? || e.NextTenant? || e.Finish?
    ensures Full(q, Next(p, s, e))
  {
    var n := Next(p, s, e);
    match e {
      case Begin(_) => if n != s { BeginFull(q, s, n); }
      case Query =>
        if s.phase.Walking? && s.phase.todo != [] {
          NotListed(s.meter.stored, q.tenant, q.metric, s.phase.last, s.phase.cur - BUCKET_SECS);
          if s.phase.todo[0] == q.tenant {
            QueryFull(q, s, n.phase.totals);
          } else {
            QueryOtherFull(q, s, n.phase.totals);
          }
        }
      case NextTenant => if n != s { PhaseFull(q, s, n.phase); }
      case Finish => if n != s { FinishFull(q, s, n); }
    }
  }

  lemma FullNext(q: Line, p: Pricing, s: System, e: Event)
    requires Full(q, s) && Follows(q, p) && Prompt(q, s, e) && !q.metric.StorageBytes?
    ensures Full(q, Next(p, s, e))
  {
    match e {
      case Metered(x) => MeteredFull(q, s, x);
      case ChargeMetric(metric, ok, id) =>
        if s.phase.Charging? && metric in s.phase.totals && id !in s.book.txns {
          ChargeStepFull(q, p, s, metric, ok, id);
        }
      case Other(op) => if FreshOp(s.book, op) { OtherFull(q, p, s, op); }
      case Clock(_) => StoredOnly(q, s, Next(p, s, e));
      case Fail =>
      case _ => WalkStepFull(q, p, s, e);
    }
  }

  /** The ledger holds no charge yet and none of the line's references is taken. */
  ghost predicate Unclaimed(q: Line, book: Book) { NoCharges(book.entries) && forall last :: !Claimed(q, book, last) }

  lemma {:induction false} FullRun(q: Line, p: Pricing, book: Book, clock: int, events: seq<Event>)
    requires Follows(q, p) && Unclaimed(q, book) && !q.metric.StorageBytes?
    requires PromptRun(q, p, Start(book, clock), events)
    ensures Full(q, Run(p, Start(book, clock), events))
    decreases |events|
  {
    if events == [] {
      assert Slices(q, map[], []) == [];
    } else {
      PromptPrefix(q, p, Start(book, clock), events);
      FullRun(q, p, book, clock, events[..|events| - 1]);
      FullNext(q, p, Run(p, Start(book, clock), events[..|events| - 1]), events[|events| - 1]);
    }
  }

  // ---- from windows to the whole span ----

  predicate OnMinute(k: UsageKey) { k.bucket % BUCKET_SECS == 0 }

  ghost predicate AllOnMinutes(m: Amounts) { forall k :: k in m ==> OnMinute(k) }

  predicate ItemsOnMinutes(items: seq<Metering.Item>) { forall i :: 0 <= i < |items| ==> OnMinute(items[i].key) }

  ghost predicate MinuteKeys(s: Metering.Meter) {
    AllOnMinutes(s.stored) && AllOnMinutes(s.pending) && ItemsOnMinutes(s.batch)
  }

  /** Usage is recorded under minutes. */
  predicate RecordsOnMinutes(events: seq<Event>) {
    forall i :: 0 <= i < |events| && events[i].Metered? && events[i].e.Record? ==> OnMinute(events[i].e.key)
  }

  lemma AddOnMinute(m: Amounts, k: UsageKey, d: nat)
    requires AllOnMinutes(m) && OnMinute(k)
    ensures AllOnMinutes(Add(m, k, d))
  {
  }

  lemma DrainOnMinutes(batch: seq<Metering.Item>, m: Amounts, order: seq<UsageKey>)
    requires ItemsOnMinutes(batch) && AllOnMinutes(m) && forall i :: 0 <= i < |order| ==> order[i] in m
    ensures ItemsOnMinutes(batch + Metering.Items(m, order))
  {
  }

  lemma RemoveOnMinutes(batch: seq<Metering.Item>, i: nat)
    requires ItemsOnMinutes(batch) && i < |batch|
    ensures ItemsOnMinutes(batch[..i] + batch[i + 1..])
  {
  }

  lemma MinuteKeysNext(s: Metering.Meter, x: Metering.Event)
    requires MinuteKeys(s) && (x.Record? ==> OnMinute(x.key))
    ensures MinuteKeys(Metering.Next(s, x))
  {
    match x
    case Record(k, d) => AddOnMinute(s.pending, k, d);
    case Drain(order) => if Metering.Walks(order, s.pending) { DrainOnMinutes(s.batch, s.pending, order); }
    case Settle(i, _) =>
      if i < |s.batch| {
        RemoveOnMinutes(s.batch, i);
        AddOnMinute(s.stored, s.batch[i].key, s.batch[i].delta);
        AddOnMinute(s.pending, s.batch[i].key, s.batch[i].delta);
      }
  }

  lemma {:induction false} MinuteKeysRun(p: Pricing, book: Book, clock: int, events: seq<Event>)
    requires RecordsOnMinutes(events)
    ensures MinuteKeys(Run(p, Start(book, clock), events).meter)
    decreases |events|
  {
    if events != [] {
      var init, e := events[..|events| - 1], events[|events| - 1];
      MinuteKeysRun(p, book, clock, init);
      if e.Metered? { MinuteKeysNext(Run(p, Start(book, clock), init).meter, e.e); }
    }
  }

  /** Two windows of minutes, one behind the other, cover what the window over both covers. */
  lemma SpanOfTwo(stored: Amounts, t: TenantId, m: Metric, lo: int, mid: int, hi: int)
    requires lo <= mid <= hi && mid % BUCKET_SECS == 0 && AllOnMinutes(stored)
    ensures WindowTotal(stored, t, m, lo, hi)
         == WindowTotal(stored, t, m, lo, mid) + WindowTotal(stored, t, m, mid + BUCKET_SECS, hi)
  {
    var a, b := KeysIn(stored, t, m, lo, mid), KeysIn(stored, t, m, mid + BUCKET_SECS, hi);
    forall k | k in KeysIn(stored, t, m, lo, hi) ensures k in a + b { assert OnMinute(k); }
    assert a + b == KeysIn(stored, t, m, lo, hi);
    TotalUnion(a, b, stored);
  }

  lemma ChainedPrefix(windows: seq<Window>, w: Window)
    requires Chained(windows + [w])
    ensures Chained(windows) && w.lo <= w.hi
    ensures windows != [] ==>
              windows[|windows| - 1].hi % BUCKET_SECS == 0 && w.lo == windows[|windows| - 1].hi + BUCKET_SECS
  {
    var all := windows + [w];
    assert all[|windows|] == w;
    assert forall i :: 0 <= i < |windows| ==> all[i] == windows[i];
  }

  function Span(windows: seq<Window>): Window
    requires windows != []
  {
    Window(windows[0].lo, windows[|windows| - 1].hi)
  }

  ghost predicate CoversSpan(q: Line, stored: Amounts, windows: seq<Window>)
    requires windows != []
  {
    Span(windows).lo <= Span(windows).hi && Sum(Slices(q, stored, windows)) == UsageIn(q, stored, Span(windows))
  }

  lemma CoversOne(q: Line, stored: Amounts, w: Window)
    requires w.lo <= w.hi
    ensures CoversSpan(q, stored, [w])
  {
    SlicesSnoc(q, stored, [], w);
    assert [] + [w] == [w] && Slices(q, stored, []) == [];
  }

  lemma CoversSnoc(q: Line, stored: Amounts, windows: seq<Window>, w: Window)
    requires windows != [] && CoversSpan(q, stored, windows) && AllOnMinutes(stored)
    requires Span(windows).hi % BUCKET_SECS == 0 && w.lo == Span(windows).hi + BUCKET_SECS && w.lo <= w.hi
    ensures CoversSpan(q, stored, windows + [w])
  {
    SlicesSnoc(q, stored, windows, w);
    SpanOfTwo(stored, q.tenant, q.metric, Span(windows).lo, Span(windows).hi, w.hi);
    assert Span(windows + [w]) == Window(Span(windows).lo, w.hi);
  }

  /** The windows of completed runs together cover the span from the first to the last. */
  lemma {:induction false} SlicesSpan(q: Line, stored: Amounts, windows: seq<Window>)
    requires Chained(windows) && windows != [] && AllOnMinutes(stored)
    ensures CoversSpan(q, stored, windows)
    decreases |windows|
  {
    var init, w := windows[..|windows| - 1], windows[|windows| - 1];
    assert windows == init + [w];
    ChainedPrefix(init, w);
    if init == [] {
      assert windows == [w];
      CoversOne(q, stored, w);
    } else {
      SlicesSpan(q, stored, init);
      CoversSnoc(q, stored, init, w);
    }
  }

  lemma {:induction false} OwedIsSumRate(p: Pricing, q: Line, slices: seq<nat>)
    requires Follows(q, p)
    ensures Owed(q.rate, slices) == if q.metric in p.rules
                                    then SumRate(p.rules[q.metric].unitSize, p.rules[q.metric].price, slices) else 0
    decreases |slices|
  {
    if slices != [] { OwedIsSumRate(p, q, slices[..|slices| - 1]); }
  }

  /** Rated window by window, the bill is at most one micro-credit per further window below the price of the whole, and
      it is not above it exactly when it fits. */
  lemma OwedBounds(p: Pricing, q: Line, slices: seq<nat>)
    requires Follows(q, p) && slices != []
    ensures q.rate(Sum(slices)) <= Owed(q.rate, slices) + |slices| - 1
    ensures Owed(q.rate, slices) <= q.rate(Sum(slices)) <==> Owed(q.rate, slices) <= I64_MAX
  {
    OwedIsSumRate(p, q, slices);
    if q.metric in p.rules { SlicedRate(p.rules[q.metric].unitSize, p.rules[q.metric].price, slices); }
  }

  lemma RateNotNegative(p: Pricing, m: Metric, units: nat)
    ensures 0 <= RateOf(p, m, units)
  {
    if m in p.rules { RateIsCapped(p.rules[m].unitSize, p.rules[m].price, units); }
  }

  // ---- the bill ----

  /** The usage of a tenant and metric over all completed windows, from the first minute of the first one. */
  ghost function SettledUsage(s: System, t: TenantId, m: Metric): nat
    requires s.completed != []
  {
    WindowTotal(s.meter.stored, t, m, Span(s.completed).lo, Span(s.completed).hi)
  }

  /** Over every prompt run, what the ledger takes from a tenant for a metric is the sum of the prices of the windows
      of all completed runs, each charged once. */
  lemma EveryWindowChargedOnce(p: Pricing, book: Book, clock: int, events: seq<Event>, t: TenantId, m: Metric)
    requires !m.StorageBytes? && Unclaimed(LineOf(p, t, m), book)
    requires PromptRun(LineOf(p, t, m), p, Start(book, clock), events)
    ensures var q, s := LineOf(p, t, m), Run(p, Start(book, clock), events);
            && CompletedPrice(q, s) <= Spent(s.book.entries, t, m, p.version)
            && (s.phase.Resting? ==> Spent(s.book.entries, t, m, p.version) == CompletedPrice(q, s))
  {
    var q, s := LineOf(p, t, m), Run(p, Start(book, clock), events);
    FullRun(q, p, book, clock, events);
    LedgerHoldsCharges(p, book, clock, events, t, m);
    if !s.phase.Resting? { RateNotNegative(p, m, Now(q, s)); }
  }

  /** The lower counterpart of `NeverOvercharged`: what the ledger takes is at least the price of everything the
      completed windows cover, less one micro-credit for each window after the first. Between runs it is also at most
      that price, exactly when the charges fit an i64. */
  lemma NeverUndercharged(p: Pricing, book: Book, clock: int, events: seq<Event>, t: TenantId, m: Metric)
    requires !m.StorageBytes? && Unclaimed(LineOf(p, t, m), book) && RecordsOnMinutes(events)
    requires PromptRun(LineOf(p, t, m), p, Start(book, clock), events)
    requires Run(p, Start(book, clock), events).completed != []
    ensures var s := Run(p, Start(book, clock), events);
            var spent, price := Spent(s.book.entries, t, m, p.version), RateOf(p, m, SettledUsage(s, t, m));
            && price <= spent + |s.completed| - 1
            && (s.phase.Resting? ==> (spent <= price <==> spent <= I64_MAX))
  {
    var q, s := LineOf(p, t, m), Run(p, Start(book, clock), events);
    FullRun(q, p, book, clock, events);
    EveryWindowChargedOnce(p, book, clock, events, t, m);
    MinuteKeysRun(p, book, clock, events);
    SlicesSpan(q, s.meter.stored, s.completed);
    OwedBounds(p, q, Slices(q, s.meter.stored, s.completed));
  }
}
