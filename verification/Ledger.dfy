/** The credit ledger (crates/metadata/src/store.rs): append-only entries, idempotent by reference, and
    vouchers that are redeemed into it. `entries` is the order of appends, kept as history. */
module Ledger {
  import opened Base
  import opened Usage

  datatype Kind = Recharge | UsageCharge | Grant | VoucherCredit | Refund | Adjustment

  datatype Txn = Txn(id: nat, tenant: TenantId, kind: Kind, amount: int, version: Option<int>,
                     reference: Option<string>, balanceAfter: Option<int>)

  datatype Status = Active | Used | Expired | Revoked

  datatype Voucher = Voucher(hash: string, amount: int, status: Status, expires: Option<int>,
                             redeemedBy: Option<TenantId>, redeemedAt: Option<int>)

  datatype Book = Book(accounts: map<TenantId, int>, txns: map<nat, Txn>, byRef: map<string, nat>,
                       vouchers: map<nat, Voucher>, byHash: map<string, nat>, entries: seq<Txn>)

  function SaturatingAdd(a: int, b: int): int {
    if a + b < I64_MIN then I64_MIN else if a + b > I64_MAX then I64_MAX else a + b
  }

  function Balance(b: Book, t: TenantId): int { if t in b.accounts then b.accounts[t] else 0 }

  /** An entry with this reference is already in the book. */
  predicate Known(b: Book, txn: Txn) {
    txn.reference.Some? && txn.reference.value in b.byRef && b.byRef[txn.reference.value] in b.txns
  }

  /** The entry as it is booked: with the balance after it. */
  function Booked(b: Book, txn: Txn): Txn {
    txn.(balanceAfter := Some(SaturatingAdd(Balance(b, txn.tenant), txn.amount)))
  }

  function Insert(b: Book, txn: Txn): Book {
    var t := Booked(b, txn);
    b.(accounts := b.accounts[t.tenant := t.balanceAfter.value], txns := b.txns[t.id := t],
       byRef := if t.reference.Some? then b.byRef[t.reference.value := t.id] else b.byRef,
       entries := b.entries + [t])
  }

  function Append(b: Book, txn: Txn): Book { if Known(b, txn) then b else Insert(b, txn) }

  function AppendAnswer(b: Book, txn: Txn): Txn {
    if Known(b, txn) then b.txns[b.byRef[txn.reference.value]] else Booked(b, txn)
  }

  // ---- vouchers ----

  function VoucherRef(hash: string): string { "voucher:" + hash }

  predicate Redeemable(b: Book, hash: string, now: int) {
    && hash in b.byHash && b.byHash[hash] in b.vouchers
    && b.vouchers[b.byHash[hash]].status.Active?
    && !(b.vouchers[b.byHash[hash]].expires.Some? && b.vouchers[b.byHash[hash]].expires.value < now)
  }

  function VoucherTxn(b: Book, hash: string, tenant: TenantId, id: nat): Txn
    requires hash in b.byHash && b.byHash[hash] in b.vouchers
  {
    Txn(id, tenant, VoucherCredit, b.vouchers[b.byHash[hash]].amount, None, Some(VoucherRef(hash)), None)
  }

  function UsedUp(v: Voucher, tenant: TenantId, now: int): Voucher {
    v.(status := Used, redeemedBy := Some(tenant), redeemedAt := Some(now))
  }

  /** Redemption marks the voucher used and books its amount; it does not look its reference up first. */
  function Redeem(b: Book, hash: string, tenant: TenantId, now: int, id: nat): Book {
    if !Redeemable(b, hash, now) then b
    else
      var v := b.byHash[hash];
      Insert(b, VoucherTxn(b, hash, tenant, id))
        .(vouchers := b.vouchers[v := UsedUp(b.vouchers[v], tenant, now)])
  }

  /** What a redemption does, by the voucher the code stands for. A code that is unknown, not active or past its expiry
      changes nothing. Otherwise, up to and including the second of its expiry, the tenant is credited the amount by one
      new entry under the voucher's reference, no other account changes, and the voucher is used up. */
  lemma RedeemOutcome(b: Book, hash: string, tenant: TenantId, now: int, id: nat)
    ensures hash !in b.byHash || b.byHash[hash] !in b.vouchers ==> Redeem(b, hash, tenant, now, id) == b
    ensures hash in b.byHash && b.byHash[hash] in b.vouchers ==>
              var v, n := b.vouchers[b.byHash[hash]], Redeem(b, hash, tenant, now, id);
              if v.status != Active || (v.expires.Some? && v.expires.value < now) then n == b
              else
                && |n.entries| == |b.entries| + 1 && n.entries[..|b.entries|] == b.entries
                && n.entries[|b.entries|] ==
                   Txn(id, tenant, VoucherCredit, v.amount, None, Some(VoucherRef(hash)), Some(Balance(n, tenant)))
                && (InI64(Balance(b, tenant) + v.amount) ==> Balance(n, tenant) == Balance(b, tenant) + v.amount)
                && (forall t: TenantId :: t != tenant ==> Balance(n, t) == Balance(b, t))
                && n.vouchers == b.vouchers[b.byHash[hash] :=
                     Voucher(v.hash, v.amount, Used, v.expires, Some(tenant), Some(now))]
  {
  }

  /** What an append does: an entry under a known reference changes nothing; any other is added at the end, its amount
      goes to its tenant's balance and to no other, and its reference is known from then on. */
  lemma AppendOutcome(b: Book, txn: Txn)
    ensures var n := Append(b, txn);
            if txn.reference.Some? && txn.reference.value in b.byRef && b.byRef[txn.reference.value] in b.txns
            then n == b && AppendAnswer(b, txn) == b.txns[b.byRef[txn.reference.value]]
            else
              && n.entries == b.entries + [AppendAnswer(b, txn)]
              && AppendAnswer(b, txn) == txn.(balanceAfter := Some(Balance(n, txn.tenant)))
              && (InI64(Balance(b, txn.tenant) + txn.amount) ==>
                  Balance(n, txn.tenant) == Balance(b, txn.tenant) + txn.amount)
              && (Balance(b, txn.tenant) + txn.amount > I64_MAX ==> Balance(n, txn.tenant) == I64_MAX)
              && (Balance(b, txn.tenant) + txn.amount < I64_MIN ==> Balance(n, txn.tenant) == I64_MIN)
              && (forall t: TenantId :: t != txn.tenant ==> Balance(n, t) == Balance(b, t))
              && (txn.reference.Some? ==> Known(n, txn))
  {
  }

  function Issue(b: Book, v: nat, voucher: Voucher): Book {
    b.(vouchers := b.vouchers[v := voucher], byHash := b.byHash[voucher.hash := v])
  }

  // ---- soundness of a book ----

  function SumFor(entries: seq<Txn>, t: TenantId): int {
    if entries == [] then 0
    else
      var x := entries[|entries| - 1];
      SumFor(entries[..|entries| - 1], t) + if x.tenant == t then x.amount else 0
  }

  /** Entry `i` carries its tenant's balance right after it. */
  predicate PrefixSum(entries: seq<Txn>, i: nat)
    requires i < |entries|
  {
    entries[i].balanceAfter == Some(SumFor(entries[..i + 1], entries[i].tenant))
  }

  /** Every balance is the sum of its tenant's entries and every `balance_after` is a prefix sum. */
  ghost predicate Balanced(b: Book) {
    && (forall t: TenantId :: Balance(b, t) == SumFor(b.entries, t))
    && (forall i :: 0 <= i < |b.entries| ==> PrefixSum(b.entries, i))
  }

  /** The id map and the append order hold the same entries. */
  ghost predicate Filed(b: Book) {
    && (forall i :: 0 <= i < |b.entries| ==> b.entries[i].id in b.txns && b.txns[b.entries[i].id] == b.entries[i])
    && (forall id :: id in b.txns ==> b.txns[id].id == id && b.txns[id] in b.entries)
  }

  /** A reference names one entry, and the index finds it. */
  ghost predicate UniqueRefs(b: Book) {
    && (forall r :: r in b.byRef ==> b.byRef[r] in b.txns && b.txns[b.byRef[r]].reference == Some(r))
    && (forall id :: id in b.txns && b.txns[id].reference.Some? ==>
          b.txns[id].reference.value in b.byRef && b.byRef[b.txns[id].reference.value] == id)
  }

  ghost predicate Sound(b: Book) { Balanced(b) && Filed(b) && UniqueRefs(b) }

  lemma SumSnoc(entries: seq<Txn>, x: Txn, t: TenantId)
    ensures SumFor(entries + [x], t) == SumFor(entries, t) + if x.tenant == t then x.amount else 0
  {
    assert (entries + [x])[..|entries|] == entries;
  }

  /** Booking an entry keeps the balances right exactly when the balance does not saturate. */
  lemma InsertBalanced(b: Book, txn: Txn)
    requires Balanced(b)
    ensures Balanced(Insert(b, txn)) <==> InI64(Balance(b, txn.tenant) + txn.amount)
  {
    var n := Insert(b, txn);
    var x := Booked(b, txn);
    forall t: TenantId ensures SumFor(n.entries, t) == SumFor(b.entries, t) + if x.tenant == t then x.amount else 0 {
      SumSnoc(b.entries, x, t);
    }
    if InI64(Balance(b, txn.tenant) + txn.amount) {
      forall i | 0 <= i < |n.entries| ensures PrefixSum(n.entries, i) {
        if i < |b.entries| {
          assert PrefixSum(b.entries, i) && n.entries[..i + 1] == b.entries[..i + 1];
        } else {
          assert n.entries[..i + 1] == n.entries;
        }
      }
    } else {
      assert Balance(n, txn.tenant) != SumFor(n.entries, txn.tenant);
    }
  }

  lemma InsertFiled(b: Book, txn: Txn)
    requires Filed(b) && txn.id !in b.txns
    ensures Filed(Insert(b, txn))
  {
    var n, x := Insert(b, txn), Booked(b, txn);
    assert n.entries[|b.entries|] == x;
    forall id | id in n.txns ensures n.txns[id].id == id && n.txns[id] in n.entries {
      if id != x.id { assert b.txns[id] in b.entries; }
    }
  }

  /** Booking an entry keeps references unique exactly when its reference is new. */
  lemma InsertUnique(b: Book, txn: Txn)
    requires UniqueRefs(b) && txn.id !in b.txns
    ensures UniqueRefs(Insert(b, txn)) <==> !(txn.reference.Some? && txn.reference.value in b.byRef)
  {
    var n := Insert(b, txn);
    if txn.reference.Some? && txn.reference.value in b.byRef {
      var earlier := b.byRef[txn.reference.value];
      assert n.txns[earlier] == b.txns[earlier] && n.byRef[txn.reference.value] == txn.id;
    }
  }

  /** Appending keeps the book sound exactly when it repeats a known entry or does not saturate. */
  lemma AppendSound(b: Book, txn: Txn)
    requires Sound(b) && txn.id !in b.txns
    ensures Sound(Append(b, txn)) <==> Known(b, txn) || InI64(Balance(b, txn.tenant) + txn.amount)
  {
    if !Known(b, txn) {
      InsertBalanced(b, txn);
      InsertFiled(b, txn);
      InsertUnique(b, txn);
    }
  }

  /** Redeeming keeps the book sound exactly when the balance does not saturate and no earlier entry
      already carries the voucher's reference. */
  lemma RedeemSound(b: Book, hash: string, tenant: TenantId, now: int, id: nat)
    requires Sound(b) && id !in b.txns && Redeemable(b, hash, now)
    ensures Sound(Redeem(b, hash, tenant, now, id)) <==>
            InI64(Balance(b, tenant) + b.vouchers[b.byHash[hash]].amount) && VoucherRef(hash) !in b.byRef
  {
    var txn := VoucherTxn(b, hash, tenant, id);
    var n := Redeem(b, hash, tenant, now, id);
    var m := Insert(b, txn);
    InsertBalanced(b, txn);
    InsertFiled(b, txn);
    InsertUnique(b, txn);
    assert n.accounts == m.accounts && n.entries == m.entries && n.txns == m.txns && n.byRef == m.byRef;
    BalancedSame(m, n);
  }

  lemma BalancedSame(m: Book, n: Book)
    requires n.accounts == m.accounts && n.entries == m.entries && n.txns == m.txns && n.byRef == m.byRef
    ensures Balanced(m) <==> Balanced(n)
    ensures Sound(m) <==> Sound(n)
  {
    assert forall t: TenantId :: Balance(m, t) == Balance(n, t);
  }

  // ---- runs ----

  datatype Op =
    | DoAppend(txn: Txn)
    | DoRedeem(hash: string, tenant: TenantId, now: int, id: nat)
    | DoIssue(v: nat, voucher: Voucher)

  function Apply(b: Book, op: Op): Book {
    match op
    case DoAppend(txn) => Append(b, txn)
    case DoRedeem(hash, t, now, id) => Redeem(b, hash, t, now, id)
    case DoIssue(v, voucher) => Issue(b, v, voucher)
  }

  function RunOps(b: Book, ops: seq<Op>): Book
    decreases |ops|
  {
    if ops == [] then b else Apply(RunOps(b, ops[..|ops| - 1]), ops[|ops| - 1])
  }

  ghost predicate NoVoucherRef(txn: Txn) { forall h :: txn.reference != Some(VoucherRef(h)) }

  /** What the callers guarantee before each call: fresh ids and voucher codes, appended references that
      are not voucher references, and no saturation. */
  ghost predicate Fair(b: Book, op: Op) {
    match op
    case DoAppend(txn) =>
      txn.id !in b.txns && (Known(b, txn) || InI64(Balance(b, txn.tenant) + txn.amount)) && NoVoucherRef(txn)
    case DoRedeem(hash, t, now, id) =>
      id !in b.txns && (Redeemable(b, hash, now) ==> InI64(Balance(b, t) + b.vouchers[b.byHash[hash]].amount))
    case DoIssue(v, voucher) =>
      v !in b.vouchers && voucher.hash !in b.byHash && VoucherRef(voucher.hash) !in b.byRef
  }

  ghost predicate FairRun(b: Book, ops: seq<Op>) {
    forall i :: 0 <= i < |ops| ==> Fair(RunOps(b, ops[..i]), ops[i])
  }

  /** A voucher that is still active has no entry yet, and is found under its own hash only. */
  ghost predicate VouchersOpen(b: Book) {
    forall h :: h in b.byHash ==>
      && b.byHash[h] in b.vouchers && b.vouchers[b.byHash[h]].hash == h
      && (b.vouchers[b.byHash[h]].status.Active? ==> VoucherRef(h) !in b.byRef)
  }

  lemma VoucherRefInjective(a: string, b: string)
    requires VoucherRef(a) == VoucherRef(b)
    ensures a == b
  {
    assert VoucherRef(a)[8..] == a && VoucherRef(b)[8..] == b;
  }

  lemma RedeemKeepsVouchersOpen(b: Book, hash: string, tenant: TenantId, now: int, id: nat)
    requires VouchersOpen(b) && Redeemable(b, hash, now)
    ensures VouchersOpen(Redeem(b, hash, tenant, now, id))
  {
    var n := Redeem(b, hash, tenant, now, id);
    forall h | h in n.byHash && n.vouchers[n.byHash[h]].status.Active? ensures VoucherRef(h) !in n.byRef {
      assert h != hash;
      if VoucherRef(h) == VoucherRef(hash) { VoucherRefInjective(h, hash); }
    }
  }

  lemma AppendKeepsVouchersOpen(b: Book, txn: Txn)
    requires VouchersOpen(b) && NoVoucherRef(txn)
    ensures VouchersOpen(Append(b, txn))
  {
    var n := Append(b, txn);
    forall h | h in n.byHash && n.vouchers[n.byHash[h]].status.Active? ensures VoucherRef(h) !in n.byRef {
      assert txn.reference != Some(VoucherRef(h));
    }
  }

  lemma IssueKeepsVouchersOpen(b: Book, v: nat, voucher: Voucher)
    requires VouchersOpen(b) && v !in b.vouchers && voucher.hash !in b.byHash && VoucherRef(voucher.hash) !in b.byRef
    ensures VouchersOpen(Issue(b, v, voucher))
  {
  }

  lemma IssueSound(b: Book, v: nat, voucher: Voucher)
    requires Sound(b)
    ensures Sound(Issue(b, v, voucher))
  {
    BalancedSame(b, Issue(b, v, voucher));
  }

  lemma AppendKeepsSound(b: Book, txn: Txn)
    requires Sound(b) && Fair(b, DoAppend(txn))
    ensures Sound(Append(b, txn))
  {
    AppendSound(b, txn);
  }

  lemma RedeemKeepsSound(b: Book, hash: string, t: TenantId, now: int, id: nat)
    requires Sound(b) && VouchersOpen(b) && Fair(b, DoRedeem(hash, t, now, id))
    ensures Sound(Redeem(b, hash, t, now, id))
  {
    if Redeemable(b, hash, now) { RedeemSound(b, hash, t, now, id); }
  }

  lemma ApplySound(b: Book, op: Op)
    requires Sound(b) && Fair(b, op) && VouchersOpen(b)
    ensures Sound(Apply(b, op))
  {
    match op
    case DoAppend(txn) => AppendKeepsSound(b, txn);
    case DoRedeem(hash, t, now, id) => RedeemKeepsSound(b, hash, t, now, id);
    case DoIssue(v, voucher) => IssueSound(b, v, voucher);
  }

  lemma ApplyKeepsVouchersOpen(b: Book, op: Op)
    requires VouchersOpen(b) && Fair(b, op)
    ensures VouchersOpen(Apply(b, op))
  {
    match op
    case DoAppend(txn) => AppendKeepsVouchersOpen(b, txn);
    case DoRedeem(hash, t, now, id) => if Redeemable(b, hash, now) { RedeemKeepsVouchersOpen(b, hash, t, now, id); }
    case DoIssue(v, voucher) => IssueKeepsVouchersOpen(b, v, voucher);
  }

  lemma FairPrefix(b: Book, ops: seq<Op>)
    requires FairRun(b, ops) && ops != []
    ensures FairRun(b, ops[..|ops| - 1]) && Fair(RunOps(b, ops[..|ops| - 1]), ops[|ops| - 1])
  {
    var n := |ops| - 1;
    assert forall i :: 0 <= i < n ==> ops[..n][..i] == ops[..i];
  }

  /** Over every fair run of appends, redemptions and voucher issues: balances are the sums of entries,
      `balance_after` is a prefix sum, and each reference has one entry. */
  lemma {:induction false} LedgerConserves(b: Book, ops: seq<Op>)
    requires Sound(b) && VouchersOpen(b) && FairRun(b, ops)
    ensures Sound(RunOps(b, ops)) && VouchersOpen(RunOps(b, ops))
    decreases |ops|
  {
    if ops != [] {
      var n := |ops| - 1;
      FairPrefix(b, ops);
      LedgerConserves(b, ops[..n]);
      ApplySound(RunOps(b, ops[..n]), ops[n]);
      ApplyKeepsVouchersOpen(RunOps(b, ops[..n]), ops[n]);
    }
  }

  function EmptyBook(): Book { Book(map[], map[], map[], map[], map[], []) }

  lemma EmptyBookSound()
    ensures Sound(EmptyBook()) && VouchersOpen(EmptyBook())
  {
  }

  /** A new store stays sound over every fair run. */
  lemma NewLedgerConserves(ops: seq<Op>)
    requires FairRun(EmptyBook(), ops)
    ensures Sound(RunOps(EmptyBook(), ops))
  {
    EmptyBookSound();
    LedgerConserves(EmptyBook(), ops);
  }

  // ---- once is once, whatever happens in between ----

  /** The entry under a reference is the one it was. */
  ghost predicate SameEntry(b: Book, n: Book, r: string)
    requires r in b.byRef && b.byRef[r] in b.txns
  {
    r in n.byRef && n.byRef[r] == b.byRef[r] && n.byRef[r] in n.txns && n.txns[n.byRef[r]] == b.txns[b.byRef[r]]
  }

  lemma EntryStays(b: Book, op: Op, r: string)
    requires UniqueRefs(b) && VouchersOpen(b) && Fair(b, op) && r in b.byRef
    ensures SameEntry(b, Apply(b, op), r)
  {
    match op
    case DoAppend(txn) =>
      if !Known(b, txn) { assert txn.reference != Some(r); }
    case DoRedeem(hash, _, now, _) =>
      if Redeemable(b, hash, now) { assert VoucherRef(hash) != r; }
    case DoIssue(_, _) =>
  }

  lemma {:induction false} EntryStaysRun(b: Book, ops: seq<Op>, r: string)
    requires Sound(b) && VouchersOpen(b) && FairRun(b, ops) && r in b.byRef
    ensures SameEntry(b, RunOps(b, ops), r)
    decreases |ops|
  {
    if ops != [] {
      var init := ops[..|ops| - 1];
      FairPrefix(b, ops);
      EntryStaysRun(b, init, r);
      LedgerConserves(b, init);
      EntryStays(RunOps(b, init), ops[|ops| - 1], r);
    }
  }

  /** A second append with the same reference, whatever else it says and whatever fair run lies between the two,
      changes nothing and returns the entry the first one booked. */
  lemma AppendOnce(b: Book, first: Txn, ops: seq<Op>, second: Txn)
    requires Sound(b) && VouchersOpen(b) && Fair(b, DoAppend(first)) && FairRun(Append(b, first), ops)
    requires first.reference.Some? && second.reference == first.reference
    ensures var n := RunOps(Append(b, first), ops);
            Append(n, second) == n && AppendAnswer(n, second) == AppendAnswer(b, first)
  {
    ApplySound(b, DoAppend(first));
    ApplyKeepsVouchersOpen(b, DoAppend(first));
    EntryStaysRun(Append(b, first), ops, first.reference.value);
  }

  predicate Redeemed(b: Book, hash: string) {
    hash in b.byHash && b.byHash[hash] in b.vouchers && !b.vouchers[b.byHash[hash]].status.Active?
  }

  lemma RedeemedStays(b: Book, op: Op, hash: string)
    requires Redeemed(b, hash) && Fair(b, op)
    ensures Redeemed(Apply(b, op), hash)
  {
  }

  lemma {:induction false} RedeemedStaysRun(b: Book, ops: seq<Op>, hash: string)
    requires Redeemed(b, hash) && FairRun(b, ops)
    ensures Redeemed(RunOps(b, ops), hash)
    decreases |ops|
  {
    if ops != [] {
      FairPrefix(b, ops);
      RedeemedStaysRun(b, ops[..|ops| - 1], hash);
      RedeemedStays(RunOps(b, ops[..|ops| - 1]), ops[|ops| - 1], hash);
    }
  }

  /** A voucher pays out once: after a redemption and any fair run, every further one, by any tenant at any time, is
      refused and changes nothing. */
  lemma RedeemOnce(b: Book, hash: string, t1: TenantId, now1: int, id1: nat, ops: seq<Op>, t2: TenantId, now2: int,
                   id2: nat)
    requires Redeemable(b, hash, now1) && FairRun(Redeem(b, hash, t1, now1, id1), ops)
    ensures var n := RunOps(Redeem(b, hash, t1, now1, id1), ops);
            !Redeemable(n, hash, now2) && Redeem(n, hash, t2, now2, id2) == n
    ensures Balance(Redeem(b, hash, t1, now1, id1), t1)
            == SaturatingAdd(Balance(b, t1), b.vouchers[b.byHash[hash]].amount)
  {
    RedeemedStaysRun(Redeem(b, hash, t1, now1, id1), ops, hash);
  }

  // ---- too late is too late ----

  /** The code stands for this voucher, used or not. */
  predicate StandsFor(b: Book, hash: string, v: nat, expires: Option<int>) {
    hash in b.byHash && b.byHash[hash] == v && v in b.vouchers && b.vouchers[v].expires == expires
  }

  lemma StandsForStays(b: Book, op: Op, hash: string, v: nat, expires: Option<int>)
    requires StandsFor(b, hash, v, expires) && Fair(b, op)
    ensures StandsFor(Apply(b, op), hash, v, expires)
  {
  }

  lemma {:induction false} StandsForRun(b: Book, ops: seq<Op>, hash: string, v: nat, expires: Option<int>)
    requires StandsFor(b, hash, v, expires) && FairRun(b, ops)
    ensures StandsFor(RunOps(b, ops), hash, v, expires)
    decreases |ops|
  {
    if ops != [] {
      FairPrefix(b, ops);
      StandsForRun(b, ops[..|ops| - 1], hash, v, expires);
      StandsForStays(RunOps(b, ops[..|ops| - 1]), ops[|ops| - 1], hash, v, expires);
    }
  }

  /** After a voucher was issued and any fair run, a redemption past its expiry pays nothing and changes nothing; one
      that is not past it pays exactly if the voucher is still active. */
  lemma ExpiredVoucherNeverPays(b: Book, v: nat, voucher: Voucher, ops: seq<Op>, tenant: TenantId, now: int, id: nat)
    requires Fair(b, DoIssue(v, voucher)) && FairRun(Issue(b, v, voucher), ops)
    ensures var n := RunOps(Issue(b, v, voucher), ops);
            && v in n.vouchers
            && (voucher.expires.Some? && voucher.expires.value < now ==> Redeem(n, voucher.hash, tenant, now, id) == n)
            && (!(voucher.expires.Some? && voucher.expires.value < now) ==>
                (Redeem(n, voucher.hash, tenant, now, id) != n <==> n.vouchers[v].status == Active))
  {
    var n := RunOps(Issue(b, v, voucher), ops);
    StandsForRun(Issue(b, v, voucher), ops, voucher.hash, v, voucher.expires);
    RedeemOutcome(n, voucher.hash, tenant, now, id);
  }

  class CreditStore {
    var accounts: map<TenantId, int>
    var transactions: map<nat, Txn>
    var byReference: map<string, nat>
    var vouchers: map<nat, Voucher>
    var voucherByHash: map<string, nat>
    ghost var entries: seq<Txn>

    constructor ()
      ensures View() == EmptyBook()
    {
      accounts, transactions, byReference, vouchers, voucherByHash, entries := map[], map[], map[], map[], map[], [];
    }

    ghost function View(): Book
      reads this
    {
      Book(accounts, transactions, byReference, vouchers, voucherByHash, entries)
    }

    method AppendCreditTransaction(txn: Txn) returns (r: Txn)
      modifies this
      ensures View() == Append(old(View()), txn)
      ensures r == AppendAnswer(old(View()), txn)
    {
      if txn.reference.Some? && txn.reference.value in byReference && byReference[txn.reference.value] in transactions {
        return transactions[byReference[txn.reference.value]];
      }
      var balance := if txn.tenant in accounts then accounts[txn.tenant] else 0;
      balance := SaturatingAdd(balance, txn.amount);
      accounts := accounts[txn.tenant := balance];
      r := txn.(balanceAfter := Some(balance));
      if r.reference.Some? {
        byReference := byReference[r.reference.value := r.id];
      }
      transactions := transactions[r.id := r];
      entries := entries + [r];
    }

    /** `id` is the fresh id of the ledger entry. */
    method RedeemVoucher(hash: string, tenant: TenantId, now: int, id: nat) returns (r: Result<int>)
      modifies this
      ensures View() == Redeem(old(View()), hash, tenant, now, id)
      ensures r.Ok? <==> && hash in old(voucherByHash) && old(voucherByHash)[hash] in old(vouchers)
                         && old(vouchers)[old(voucherByHash)[hash]].status == Active
                         && (old(vouchers)[old(voucherByHash)[hash]].expires.Some? ==>
                             now <= old(vouchers)[old(voucherByHash)[hash]].expires.value)
      ensures r == if r.Ok? then Ok(old(vouchers)[old(voucherByHash)[hash]].amount) else Err(InvalidRequest)
      ensures r.Err? ==> View() == old(View())
    {
      if hash !in voucherByHash || voucherByHash[hash] !in vouchers { return Err(InvalidRequest); }
      var v := voucherByHash[hash];
      var voucher := vouchers[v];
      if !voucher.status.Active? { return Err(InvalidRequest); }
      if voucher.expires.Some? && voucher.expires.value < now { return Err(InvalidRequest); }
      vouchers := vouchers[v := voucher.(status := Used, redeemedBy := Some(tenant), redeemedAt := Some(now))];
      var balance := SaturatingAdd(if tenant in accounts then accounts[tenant] else 0, voucher.amount);
      accounts := accounts[tenant := balance];
      var txn := Txn(id, tenant, VoucherCredit, voucher.amount, None, Some("voucher:" + hash), Some(balance));
      byReference := byReference["voucher:" + hash := id];
      transactions := transactions[id := txn];
      entries := entries + [txn];
      r := Ok(voucher.amount);
    }
  }
}
