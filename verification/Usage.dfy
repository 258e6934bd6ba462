/** Usage keys and minute buckets (crates/common/src/usage.rs), and totals over per-key amounts. */
module Usage {
  import opened Base

  /** A tenant id as printed in references: a uuid, so it holds no colon. */
  type TenantId = s: string | ':' !in s witness ""

  datatype Metric =
    | KvRead | KvWrite | SqlRead | SqlWrite | Requests | BytesIn | BytesOut
    | StorageBytes | StorageByteSecs

  function MetricName(m: Metric): string {
    match m
    case KvRead => "kv_read"
    case KvWrite => "kv_write"
    case SqlRead => "sql_read"
    case SqlWrite => "sql_write"
    case Requests => "requests"
    case BytesIn => "bytes_in"
    case BytesOut => "bytes_out"
    case StorageBytes => "storage_bytes"
    case StorageByteSecs => "storage_byte_secs"
  }

  function ParseMetric(s: string): Option<Metric> {
    match s
    case "kv_read" => Some(KvRead)
    case "kv_write" => Some(KvWrite)
    case "sql_read" => Some(SqlRead)
    case "sql_write" => Some(SqlWrite)
    case "requests" => Some(Requests)
    case "bytes_in" => Some(BytesIn)
    case "bytes_out" => Some(BytesOut)
    case "storage_bytes" => Some(StorageBytes)
    case "storage_byte_secs" => Some(StorageByteSecs)
    case _ => None
  }

  /** Metric names are pairwise different and hold no colon. */
  lemma MetricRoundTrip(m: Metric)
    ensures ParseMetric(MetricName(m)) == Some(m) && ':' !in MetricName(m)
  {
  }

  const BUCKET_SECS: int := 60

  /** Start of the minute that holds `t`, also for negative times. */
  function BucketStart(t: int): (b: int)
    ensures b % BUCKET_SECS == 0 && b <= t < b + BUCKET_SECS
  {
    t / BUCKET_SECS * BUCKET_SECS
  }

  datatype UsageKey = UsageKey(tenant: TenantId, cell: Option<nat>, metric: Metric, bucket: int)

  // ---- amounts per key ----

  type Amounts = map<UsageKey, nat>

  function Amount(m: Amounts, k: UsageKey): nat { if k in m then m[k] else 0 }

  /** `*m.entry(k).or_insert(0) += d`. */
  function Add(m: Amounts, k: UsageKey, d: nat): Amounts { m[k := Amount(m, k) + d] }

  // ---- totals over sets of keys ----

  ghost function Total(keys: set<UsageKey>, m: Amounts): nat {
    if keys == {} then 0 else var k :| k in keys; Amount(m, k) + Total(keys - {k}, m)
  }

  lemma {:induction false} TotalPick(keys: set<UsageKey>, m: Amounts, k: UsageKey)
    requires k in keys
    ensures Total(keys, m) == Amount(m, k) + Total(keys - {k}, m)
    decreases |keys|
  {
    var j :| j in keys && Total(keys, m) == Amount(m, j) + Total(keys - {j}, m);
    if j != k {
      TotalPick(keys - {j}, m, k);
      TotalPick(keys - {k}, m, j);
      assert keys - {j} - {k} == keys - {k} - {j};
    }
  }

  lemma {:induction false} TotalUnion(a: set<UsageKey>, b: set<UsageKey>, m: Amounts)
    requires a !! b
    ensures Total(a + b, m) == Total(a, m) + Total(b, m)
    decreases |a|
  {
    if a == {} {
      assert a + b == b;
    } else {
      var k :| k in a;
      TotalPick(a, m, k);
      TotalPick(a + b, m, k);
      TotalUnion(a - {k}, b, m);
      assert a + b - {k} == a - {k} + b;
    }
  }

  lemma TotalSubset(a: set<UsageKey>, b: set<UsageKey>, m: Amounts)
    requires a <= b
    ensures Total(a, m) <= Total(b, m)
  {
    TotalUnion(a, b - a, m);
    assert a + (b - a) == b;
  }

  /** Pointwise bounds carry over to totals. */
  lemma {:induction false} TotalBound(keys: set<UsageKey>, m: Amounts, x: Amounts, y: Amounts)
    requires forall k :: k in keys ==> Amount(m, k) <= Amount(x, k) + Amount(y, k)
    ensures Total(keys, m) <= Total(keys, x) + Total(keys, y)
    decreases |keys|
  {
    if keys != {} {
      var k :| k in keys;
      TotalPick(keys, m, k);
      TotalPick(keys, x, k);
      TotalPick(keys, y, k);
      TotalBound(keys - {k}, m, x, y);
    }
  }

  /** Keys without an entry contribute nothing. */
  lemma {:induction false} TotalAbsent(keys: set<UsageKey>, m: Amounts)
    requires forall k :: k in keys ==> k !in m
    ensures Total(keys, m) == 0
    decreases |keys|
  {
    if keys != {} {
      var k :| k in keys;
      TotalPick(keys, m, k);
      TotalAbsent(keys - {k}, m);
    }
  }

  ghost function KeysOf(m: Amounts, t: TenantId, metric: Metric): set<UsageKey> {
    set k | k in m && k.tenant == t && k.metric == metric
  }

  /** Everything in `m` for one tenant and metric. */
  ghost function TotalOf(m: Amounts, t: TenantId, metric: Metric): nat { Total(KeysOf(m, t, metric), m) }

  /** Keys of one tenant and metric total at most `TotalOf`, whether or not they are entries. */
  lemma TotalWithin(keys: set<UsageKey>, m: Amounts, t: TenantId, metric: Metric)
    requires forall k :: k in keys ==> k.tenant == t && k.metric == metric
    ensures Total(keys, m) <= TotalOf(m, t, metric)
  {
    var present := keys * m.Keys;
    assert present + (keys - present) == keys;
    TotalUnion(present, keys - present, m);
    TotalAbsent(keys - present, m);
    TotalSubset(present, KeysOf(m, t, metric), m);
  }
}
