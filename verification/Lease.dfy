/** The leader lease (crates/metadata/src/store.rs) that lets one API replica sample storage at a time
    (crates/api-server/src/usage.rs). */
module LeaderLease {

  datatype Lease = Lease(owner: nat, expires: int)

  datatype Call = Call(name: string, owner: nat, now: int, ttl: int)

  /** The lease is free, the caller's own, or past its expiry. */
  predicate Grants(leases: map<string, Lease>, c: Call) {
    c.name in leases ==> leases[c.name].owner == c.owner || leases[c.name].expires < c.now
  }

  function Acquire(leases: map<string, Lease>, c: Call): map<string, Lease> {
    if Grants(leases, c) then leases[c.name := Lease(c.owner, c.now + c.ttl)] else leases
  }

  class LeaseStore {
    var leases: map<string, Lease>

    constructor ()
      ensures leases == map[]
    {
      leases := map[];
    }

    method TryAcquireLease(name: string, owner: nat, now: int, ttl: int) returns (held: bool)
      modifies this
      ensures held <==> Grants(old(leases), Call(name, owner, now, ttl))
      ensures leases == Acquire(old(leases), Call(name, owner, now, ttl))
    {
      held := true;
      if name in leases {
        var current := leases[name];
        held := current.owner == owner || current.expires < now;
      }
      if held { leases := leases[name := Lease(owner, now + ttl)]; }
    }
  }

  // ---- runs of calls by any number of replicas ----

  function Run(calls: seq<Call>): map<string, Lease> {
    if calls == [] then map[] else Acquire(Run(calls[..|calls| - 1]), calls[|calls| - 1])
  }

  /** Call `i` got the lease. */
  predicate Success(calls: seq<Call>, i: nat)
    requires i < |calls|
  {
    Grants(Run(calls[..i]), calls[i])
  }

  /** Call `i` is the latest to have got the lease `name` before call `n`. */
  predicate LastSuccess(calls: seq<Call>, n: nat, name: string, i: nat)
    requires n <= |calls|
  {
    && i < n && calls[i].name == name && Success(calls, i)
    && forall k :: i < k < n && calls[k].name == name ==> !Success(calls, k)
  }

  /** The store holds what call `i`, the latest success before call `n`, left there. */
  predicate HeldFrom(calls: seq<Call>, n: nat, name: string, i: nat)
    requires n <= |calls|
  {
    && LastSuccess(calls, n, name, i) && name in Run(calls[..n])
    && Run(calls[..n])[name] == Lease(calls[i].owner, calls[i].now + calls[i].ttl)
  }

  /** What the store holds is what the latest success left there. */
  lemma {:induction false} HeldByLastSuccess(calls: seq<Call>, n: nat, name: string)
    requires n <= |calls|
    ensures name in Run(calls[..n]) ==> exists i: nat :: HeldFrom(calls, n, name, i)
    ensures name !in Run(calls[..n]) ==> forall k :: 0 <= k < n && calls[k].name == name ==> !Success(calls, k)
  {
    if n > 0 {
      HeldByLastSuccess(calls, n - 1, name);
      assert calls[..n][..n - 1] == calls[..n - 1];
      if calls[n - 1].name == name && Success(calls, n - 1) {
        assert HeldFrom(calls, n, name, n - 1);
      } else if name in Run(calls[..n - 1]) {
        var i: nat :| HeldFrom(calls, n - 1, name, i);
        assert HeldFrom(calls, n, name, i);
      }
    }
  }

  lemma LastSuccessUnique(calls: seq<Call>, n: nat, name: string, i: nat, j: nat)
    requires n <= |calls| && LastSuccess(calls, n, name, i) && LastSuccess(calls, n, name, j)
    ensures i == j
  {
    assert j <= i && i <= j;
  }

  /** A call succeeds exactly when nobody had the lease before, the caller had it last, or it comes strictly after
      the latest success plus that success's ttl. */
  lemma SucceedsExactly(calls: seq<Call>, j: nat)
    requires j < |calls|
    ensures (forall k :: 0 <= k < j && calls[k].name == calls[j].name ==> !Success(calls, k)) ==> Success(calls, j)
    ensures forall i: nat :: LastSuccess(calls, j, calls[j].name, i) ==>
              (Success(calls, j) <==> calls[j].owner == calls[i].owner || calls[i].now + calls[i].ttl < calls[j].now)
  {
    var name := calls[j].name;
    HeldByLastSuccess(calls, j, name);
    forall i: nat | LastSuccess(calls, j, name, i)
      ensures Success(calls, j) <==> calls[j].owner == calls[i].owner || calls[i].now + calls[i].ttl < calls[j].now
    {
      var h: nat :| HeldFrom(calls, j, name, h);
      LastSuccessUnique(calls, j, name, i, h);
    }
  }

  predicate Ordered(calls: seq<Call>) { forall i, j :: 0 <= i < j < |calls| ==> calls[i].now <= calls[j].now }

  lemma {:induction false} SomeLastSuccess(calls: seq<Call>, n: nat, i: nat) returns (k: nat)
    requires i < n <= |calls| && Success(calls, i)
    ensures i <= k && LastSuccess(calls, n, calls[i].name, k)
    decreases n
  {
    if n == i + 1 || (calls[n - 1].name == calls[i].name && Success(calls, n - 1)) {
      k := n - 1;
    } else {
      k := SomeLastSuccess(calls, n - 1, i);
    }
  }

  /** With a clock that never steps back, successes of different owners are more than the ttl apart: all pairs,
      however many other calls lie between them. */
  lemma {:induction false} SuccessesAreApart(calls: seq<Call>, i: nat, j: nat, ttl: int)
    requires Ordered(calls) && i < j < |calls|
    requires forall k :: 0 <= k < |calls| && calls[k].name == calls[i].name ==> ttl <= calls[k].ttl
    requires calls[i].name == calls[j].name && calls[i].owner != calls[j].owner
    requires Success(calls, i) && Success(calls, j)
    ensures calls[i].now + ttl < calls[j].now
    decreases j
  {
    var k := SomeLastSuccess(calls, j, i);
    SucceedsExactly(calls, j);
    if calls[k].owner == calls[j].owner {
      SuccessesAreApart(calls, i, k, ttl);
    }
  }

  /** The storage sampler's ttl for a sampling interval in seconds. */
  function SamplerTtl(interval: nat): int { (if 2 * interval < 1 then 1 else 2 * interval) + 60 }

  /** Two replicas never sample the same interval: their permits are more than two intervals and a minute apart. */
  lemma SamplingPermitsAreApart(calls: seq<Call>, interval: nat, i: nat, j: nat)
    requires Ordered(calls) && i < j < |calls|
    requires forall k :: 0 <= k < |calls| && calls[k].name == "storage_sampler" ==> calls[k].ttl == SamplerTtl(interval)
    requires calls[i].name == calls[j].name == "storage_sampler" && calls[i].owner != calls[j].owner
    requires Success(calls, i) && Success(calls, j)
    ensures 2 * interval + 60 < calls[j].now - calls[i].now
  {
    SuccessesAreApart(calls, i, j, SamplerTtl(interval));
  }

  /** And a replica that asks more than two intervals and a minute after the last permit gets one; if the interval is 0,
      more than a minute and a second after it. */
  lemma SamplingPermitIsFreed(calls: seq<Call>, interval: nat, i: nat, j: nat)
    requires j < |calls| && calls[j].name == "storage_sampler" && LastSuccess(calls, j, "storage_sampler", i)
    requires calls[i].ttl == SamplerTtl(interval)
    requires calls[j].now - calls[i].now > if interval == 0 then 61 else 2 * interval + 60
    ensures Success(calls, j)
  {
    SucceedsExactly(calls, j);
  }

  /** With a clock that steps back, a renewal shortens the lease and the next owner comes too early. */
  lemma ClockStepBackShortensTheLease(ttl: nat)
    ensures var calls := [Call("l", 0, 5, ttl), Call("l", 0, 0, ttl), Call("l", 1, ttl + 1, ttl)];
            Success(calls, 0) && Success(calls, 2) && calls[2].now <= calls[0].now + ttl
  {
    var a, b, c := Call("l", 0, 5, ttl), Call("l", 0, 0, ttl), Call("l", 1, ttl + 1, ttl);
    var calls := [a, b, c];
    assert calls[..0] == [] && calls[..1] == [a] && calls[..2] == [a, b];
    assert [a][..0] == [] && [a, b][..1] == [a];
    assert Run([a]) == map["l" := Lease(0, 5 + ttl)];
    assert Run([a, b]) == map["l" := Lease(0, ttl)];
  }
}
