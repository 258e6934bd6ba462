/** The usage query of the metadata store (crates/metadata/src/store.rs): the stored buckets that pass the filters,
    in order. */
module UsageQuery {
  import opened Base
  import opened Usage

  predicate Matches(k: UsageKey, t: TenantId, cell: Option<nat>, metric: Option<Metric>, lo: int, hi: int) {
    && k.tenant == t && (cell.Some? ==> k.cell == cell) && (metric.Some? ==> k.metric == metric.value)
    && lo <= k.bucket <= hi
  }

  // ---- the order of the answer ----

  /** No Cell comes before every Cell. */
  predicate CellBefore(a: Option<nat>, b: Option<nat>) { b.Some? && (a.None? || a.value < b.value) }

  /** By minute, then by the metric's name, then by Cell. */
  predicate Before(a: UsageKey, b: UsageKey) {
    || a.bucket < b.bucket
    || (a.bucket == b.bucket && Less(MetricName(a.metric), MetricName(b.metric)))
    || (a.bucket == b.bucket && a.metric == b.metric && CellBefore(a.cell, b.cell))
  }

  lemma BeforeTotal(a: UsageKey, b: UsageKey)
    requires a.tenant == b.tenant && a != b
    ensures Before(a, b) || Before(b, a)
  {
    if a.metric != b.metric {
      MetricRoundTrip(a.metric);
      MetricRoundTrip(b.metric);
      LessTotal(MetricName(a.metric), MetricName(b.metric));
    }
  }

  lemma BeforeTransitive(a: UsageKey, b: UsageKey, c: UsageKey)
    requires Before(a, b) && Before(b, c)
    ensures Before(a, c)
  {
    var x, y, z := MetricName(a.metric), MetricName(b.metric), MetricName(c.metric);
    if Less(x, y) && Less(y, z) { LessTransitive(x, y, z); }
  }

  lemma BeforeIrreflexive(a: UsageKey)
    ensures !Before(a, a)
  {
    LessIrreflexive(MetricName(a.metric));
  }

  predicate Ordered(q: seq<UsageKey>) { forall i, j :: 0 <= i < j < |q| ==> Before(q[i], q[j]) }

  /** The answer to a query: exactly the matching buckets, in order, so each once. */
  ghost predicate Answers(q: seq<UsageKey>, usage: Amounts, t: TenantId, cell: Option<nat>, metric: Option<Metric>,
                          lo: int, hi: int)
  {
    && Ordered(q)
    && forall k :: k in q <==>
         && k in usage && k.tenant == t && lo <= k.bucket <= hi
         && (cell.None? || k.cell == cell) && (metric.None? || k.metric == metric.value)
  }

  /** The order of an answer: minutes never go back, within a minute the metrics' names do not, and within both the
      bucket without a Cell comes first and Cells ascend. */
  lemma OrderedMeans(q: seq<UsageKey>, i: nat, j: nat)
    requires Ordered(q) && i < j < |q|
    ensures q[i].bucket <= q[j].bucket
    ensures q[i].bucket == q[j].bucket ==> !Less(MetricName(q[j].metric), MetricName(q[i].metric))
    ensures q[i].bucket == q[j].bucket && q[i].metric == q[j].metric ==>
              q[j].cell.Some? && (q[i].cell.Some? ==> q[i].cell.value < q[j].cell.value)
  {
    assert Before(q[i], q[j]);
    LessTotal(MetricName(q[i].metric), MetricName(q[j].metric));
  }

  lemma OrderedIsDistinct(q: seq<UsageKey>, i: nat, j: nat)
    requires Ordered(q) && i < j < |q|
    ensures q[i] != q[j]
  {
    assert Before(q[i], q[j]);
    BeforeIrreflexive(q[i]);
  }

  // ---- the query ----

  lemma InsertedOrdered(q: seq<UsageKey>, k: UsageKey, n: nat)
    requires Ordered(q) && n <= |q|
    requires n > 0 ==> Before(q[n - 1], k)
    requires n < |q| ==> Before(k, q[n])
    ensures Ordered(q[..n] + [k] + q[n..])
  {
    var r := q[..n] + [k] + q[n..];
    forall i | 0 <= i < n ensures Before(q[i], k) {
      if i < n - 1 { BeforeTransitive(q[i], q[n - 1], k); }
    }
    forall j | n <= j < |q| ensures Before(k, q[j]) {
      if n < j { BeforeTransitive(k, q[n], q[j]); }
    }
    forall i, j | 0 <= i < j < |r| ensures Before(r[i], r[j]) {
      var a, b := if i < n then i else i - 1, if j < n then j else j - 1;
      if i != n && j != n { assert r[i] == q[a] && r[j] == q[b]; }
    }
  }

  /** Put a bucket in its place. */
  method Insert(q: seq<UsageKey>, k: UsageKey) returns (r: seq<UsageKey>)
    requires Ordered(q) && k !in q && forall x :: x in q ==> x.tenant == k.tenant
    ensures Ordered(r) && forall x :: x in r <==> x in q || x == k
  {
    var n := 0;
    while n < |q| && Before(q[n], k)
      invariant n <= |q| && (n > 0 ==> Before(q[n - 1], k))
    {
      n := n + 1;
    }
    if n < |q| { BeforeTotal(k, q[n]); }
    InsertedOrdered(q, k, n);
    r := q[..n] + [k] + q[n..];
    assert q == q[..n] + q[n..];
  }

  method QueryUsage(usage: Amounts, t: TenantId, cell: Option<nat>, metric: Option<Metric>, lo: int, hi: int)
    returns (out: seq<UsageKey>)
    ensures Answers(out, usage, t, cell, metric, lo, hi)
  {
    out := [];
    var matching := set k | k in usage && Matches(k, t, cell, metric, lo, hi);
    var rest := matching;
    while rest != {}
      invariant rest <= matching && Ordered(out)
      invariant forall k :: k in out <==> k in matching && k !in rest
      decreases rest
    {
      var k :| k in rest;
      out := Insert(out, k);
      rest := rest - {k};
    }
  }

  /** The answer is unique, so the order in which the store holds its buckets does not show. */
  lemma {:induction false} AnswerUnique(p: seq<UsageKey>, q: seq<UsageKey>)
    requires Ordered(p) && Ordered(q) && forall k :: k in p <==> k in q
    ensures p == q
    decreases |p|
  {
    assert q != [] ==> q[0] in q;
    if p != [] {
      SameHead(p, q);
      var a, b := p[1..], q[1..];
      forall k ensures k in a <==> k in b {
        TailKeys(p, k);
        TailKeys(q, k);
      }
      AnswerUnique(a, b);
      assert p == [p[0]] + a && q == [q[0]] + b;
    }
  }

  lemma TailKeys(q: seq<UsageKey>, k: UsageKey)
    requires Ordered(q) && q != []
    ensures k in q[1..] <==> k in q && k != q[0]
  {
    if k in q[1..] {
      var i :| 0 <= i < |q| - 1 && q[1..][i] == k;
      OrderedIsDistinct(q, 0, i + 1);
    }
  }

  lemma SameHead(p: seq<UsageKey>, q: seq<UsageKey>)
    requires Ordered(p) && Ordered(q) && p != [] && forall k :: k in p <==> k in q
    ensures q != [] && p[0] == q[0]
  {
    assert p[0] in q;
    var i :| 0 <= i < |q| && q[i] == p[0];
    assert q[0] in p;
    var j :| 0 <= j < |p| && p[j] == q[0];
    if i > 0 && j > 0 {
      BeforeTransitive(p[0], q[0], p[0]);
      BeforeIrreflexive(p[0]);
      assert false;
    }
  }
}
