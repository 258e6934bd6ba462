/** Shared value types: optional values, results, the error kinds the model distinguishes, and the
    64-bit ranges the source's integers live in. */
module Base {
  datatype Option<+T> = None | Some(value: T)

  datatype Error = InvalidRequest | Forbidden | NotFound | AlreadyExists | NameTaken | Internal

  datatype Result<+T> = Ok(value: T) | Err(error: Error)

  const I64_MIN: int := -0x8000_0000_0000_0000
  const I64_MAX: int := 0x7fff_ffff_ffff_ffff
  const TWO_64: int := 0x1_0000_0000_0000_0000

  /** A Rust `u64`. */
  type U64 = x: int | 0 <= x < TWO_64

  predicate InI64(x: int) { I64_MIN <= x <= I64_MAX }

  /** Texts without the separator are told apart by its first occurrence. */
  lemma SplitAt(c: char, a: string, x: string, b: string, y: string)
    requires c !in a && c !in b && a + [c] + x == b + [c] + y
    ensures a == b && x == y
  {
    var s := a + [c] + x;
    assert forall i :: 0 <= i < |a| ==> s[i] == a[i];
    assert forall i :: 0 <= i < |b| ==> s[i] == b[i];
    assert s[|a|] == c && s[|b|] == c;
    assert s[..|a|] == a && s[..|b|] == b && s[|a| + 1..] == x && s[|b| + 1..] == y;
  }

  // ---- the order of texts ----

  predicate Less(a: string, b: string) {
    b != [] && (a == [] || a[0] < b[0] || (a[0] == b[0] && Less(a[1..], b[1..])))
  }

  /** The first difference decides, and a text comes before every longer one that starts with it. */
  lemma {:induction false} LessDecides(p: string, x: char, a: string, y: char, b: string)
    ensures x != y ==> (Less(p + [x] + a, p + [y] + b) <==> x < y)
    ensures Less(p, p + [x] + a) && !Less(p + [x] + a, p)
    decreases |p|
  {
    if p == "" {
      assert p + [x] + a == [x] + a && p + [y] + b == [y] + b;
    } else {
      LessDecides(p[1..], x, a, y, b);
      assert (p + [x] + a)[1..] == p[1..] + [x] + a && (p + [y] + b)[1..] == p[1..] + [y] + b;
    }
  }

  lemma {:induction false} LessIrreflexive(a: string)
    ensures !Less(a, a)
  {
    if a != [] { LessIrreflexive(a[1..]); }
  }

  lemma {:induction false} LessTotal(a: string, b: string)
    ensures !(Less(a, b) && Less(b, a)) && !Less(a, a)
    ensures a != b ==> Less(a, b) || Less(b, a)
    decreases |a| + |b|
  {
    LessIrreflexive(a);
    if a != [] && b != [] && a[0] == b[0] {
      LessTotal(a[1..], b[1..]);
      if a[1..] == b[1..] { assert a == [a[0]] + a[1..] && b == [b[0]] + b[1..]; }
    }
  }

  lemma {:induction false} LessTransitive(a: string, b: string, c: string)
    requires Less(a, b) && Less(b, c)
    ensures Less(a, c)
  {
    if a != [] && a[0] == b[0] && b[0] == c[0] { LessTransitive(a[1..], b[1..], c[1..]); }
  }
}
