/** Decimal printing and parsing of machine integers: `to_string` and `str::parse` as the KV counter
    (crates/data-node/src/kv.rs), the archive revision (crates/data-node/src/backup.rs) and the
    settlement reference (crates/api-server/src/settlement.rs) use them. */
module Decimal {
  import opened Base

  predicate IsDigit(c: char) { '0' <= c <= '9' }

  predicate AllDigits(s: string) { forall i :: 0 <= i < |s| ==> IsDigit(s[i]) }

  function DigitChar(d: nat): char
    requires d < 10
  {
    ('0' as int + d) as char
  }

  function PrintNat(n: nat): (s: string)
    ensures |s| > 0 && AllDigits(s)
  {
    if n < 10 then [DigitChar(n)] else PrintNat(n / 10) + [DigitChar(n % 10)]
  }

  function PrintInt(n: int): string {
    if n < 0 then "-" + PrintNat(-n) else PrintNat(n)
  }

  function DigitsValue(s: string): nat
    requires AllDigits(s)
  {
    if s == [] then 0
    else 10 * DigitsValue(s[..|s| - 1]) + (s[|s| - 1] as int - '0' as int)
  }

  /** An unsigned literal: one optional `+`, then at least one digit. */
  function ParseNat(s: string): Option<nat> {
    var body := if |s| > 0 && s[0] == '+' then s[1..] else s;
    if body != [] && AllDigits(body) then Some(DigitsValue(body)) else None
  }

  /** A Rust `i64` literal: optional sign, at least one digit, no overflow. */
  function ParseI64(s: string): (r: Option<int>)
    ensures r.Some? ==> InI64(r.value)
  {
    if |s| > 0 && s[0] == '-' then
      if |s| > 1 && AllDigits(s[1..]) then
        var n: int := DigitsValue(s[1..]);
        if InI64(-n) then Some(-n) else None
      else None
    else
      match ParseNat(s)
      case Some(n) => if InI64(n) then Some(n) else None
      case None => None
  }

  lemma {:induction false} DigitsRoundTrip(n: nat)
    ensures DigitsValue(PrintNat(n)) == n
  {
    var s := PrintNat(n);
    if n < 10 {
      assert s[..|s| - 1] == [];
    } else {
      DigitsRoundTrip(n / 10);
      assert s[..|s| - 1] == PrintNat(n / 10);
    }
  }

  lemma NatRoundTrip(n: nat)
    ensures ParseNat(PrintNat(n)) == Some(n)
  {
    DigitsRoundTrip(n);
  }

  lemma PrintIntSign(n: int)
    ensures PrintInt(n) != [] && (PrintInt(n)[0] == '-' <==> n < 0)
  {
    if n >= 0 {
      assert IsDigit(PrintNat(n)[0]);
    }
  }

  /** `n.to_string().parse::<i64>()` gives `n` back, and nothing outside the i64 range parses. */
  lemma IntRoundTrip(n: int)
    ensures ParseI64(PrintInt(n)) == if InI64(n) then Some(n) else None
  {
    PrintIntSign(n);
    var s := PrintInt(n);
    if n < 0 {
      assert s[1..] == PrintNat(-n);
      DigitsRoundTrip(-n);
    } else {
      NatRoundTrip(n);
    }
  }

  /** One leading `+` and any leading zeros do not matter; a sign alone or nothing at all is no number. */
  lemma {:induction false} OtherSpellings(n: nat, zeros: nat)
    ensures ParseI64("+" + PrintNat(n)) == ParseI64(PrintNat(n))
    ensures AllDigits(Zeros(zeros) + PrintNat(n)) && DigitsValue(Zeros(zeros) + PrintNat(n)) == n
    ensures ParseI64("") == ParseI64("+") == ParseI64("-") == None
    decreases zeros
  {
    assert ("+" + PrintNat(n))[1..] == PrintNat(n) && "+"[1..] == "" && IsDigit(PrintNat(n)[0]);
    DigitsRoundTrip(n);
    ZerosInFront(zeros, PrintNat(n));
  }

  function Zeros(n: nat): (s: string)
    ensures AllDigits(s)
  {
    if n == 0 then "" else "0" + Zeros(n - 1)
  }

  lemma {:induction false} ZerosInFront(zeros: nat, s: string)
    requires AllDigits(s)
    ensures AllDigits(Zeros(zeros) + s) && DigitsValue(Zeros(zeros) + s) == DigitsValue(s)
    decreases |s|
  {
    var t := Zeros(zeros) + s;
    if s == "" {
      assert t == Zeros(zeros);
      ZerosAreZero(zeros);
    } else {
      ZerosInFront(zeros, s[..|s| - 1]);
      assert t[..|t| - 1] == Zeros(zeros) + s[..|s| - 1];
    }
  }

  lemma {:induction false} ZerosAreZero(zeros: nat)
    ensures DigitsValue(Zeros(zeros)) == 0
  {
    if zeros > 0 {
      ZerosAreZero(zeros - 1);
      ZerosEnd(zeros);
    }
  }

  lemma {:induction false} ZerosEnd(zeros: nat)
    requires zeros > 0
    ensures Zeros(zeros) == Zeros(zeros - 1) + "0"
  {
    if zeros > 1 { ZerosEnd(zeros - 1); }
  }

  /** Distinct integers print differently. */
  lemma PrintIntInjective(a: int, b: int)
    requires PrintInt(a) == PrintInt(b)
    ensures a == b
  {
    PrintIntSign(a);
    PrintIntSign(b);
    if a < 0 && b < 0 {
      assert PrintInt(a)[1..] == PrintNat(-a) && PrintInt(b)[1..] == PrintNat(-b);
      DigitsRoundTrip(-a);
      DigitsRoundTrip(-b);
    } else {
      DigitsRoundTrip(a);
      DigitsRoundTrip(b);
    }
  }

  lemma PrintIntChars(n: int, c: char)
    requires c in PrintInt(n)
    ensures IsDigit(c) || c == '-'
  {
  }
}
