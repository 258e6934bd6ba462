/** Object keys of the incremental archive and the revision in them (crates/data-node/src/backup.rs). */
module ArchiveKeys {
  import opened Base
  import Decimal

  const TWO_128: nat := 0x1_0000_0000_0000_0000_0000_0000_0000_0000

  /** Milliseconds since the epoch, a u128. */
  type Rev = n: nat | n < TWO_128

  /** A database id as it is printed: lower-case hex digits and dashes. */
  type DbName = s: string | forall i :: 0 <= i < |s| ==> s[i] in "0123456789abcdef-" witness ""

  function Prefix(db: DbName): string { "backups/" + (db + "/incr/") }

  function SnapKey(db: DbName, rev: Rev): string { Prefix(db) + ("snapshot-" + (Decimal.PrintNat(rev) + ".sqlite")) }

  function WalKey(db: DbName, rev: Rev): string { Prefix(db) + ("wal-" + (Decimal.PrintNat(rev) + ".sqlite-wal")) }

  // ---- parsing ----

  predicate MatchesAt(s: string, pat: string, i: nat) { i + |pat| <= |s| && s[i..i + |pat|] == pat }

  /** `str::find`, from position `i` on. */
  function Find(s: string, pat: string, i: nat): Option<nat>
    decreases |s| - i
  {
    if i >= |s| then if pat == "" && i == |s| then Some(i) else None
    else if MatchesAt(s, pat, i) then Some(i)
    else Find(s, pat, i + 1)
  }

  predicate Contains(s: string, pat: string) { Find(s, pat, 0).Some? }

  /** The first piece of `split('.')`. */
  function UpToDot(s: string): string { if s == "" || s[0] == '.' then "" else [s[0]] + UpToDot(s[1..]) }

  function ParseU128(s: string): Option<Rev> {
    match Decimal.ParseNat(s)
    case Some(n) => if n < TWO_128 then Some(n) else None
    case None => None
  }

  function ParseRev(name: string): Option<Rev> {
    match Find(name, "snapshot-", 0)
    case Some(i) => if i + 9 <= |name| then ParseU128(UpToDot(name[i + 9..])) else None
    case None =>
      match Find(name, "wal-", 0)
      case Some(i) => if i + 4 <= |name| then ParseU128(UpToDot(name[i + 4..])) else None
      case None => None
  }

  predicate IsSnap(name: string) { Contains(name, "snapshot-") }

  predicate IsWal(name: string) { !Contains(name, "snapshot-") && Contains(name, "wal-") }

  // ---- a key gives its revision back ----

  lemma {:induction false} FindFirst(s: string, pat: string, i: nat, n: nat)
    requires i <= n < |s| && MatchesAt(s, pat, n) && forall j :: i <= j < n ==> !MatchesAt(s, pat, j)
    ensures Find(s, pat, i) == Some(n)
    decreases n - i
  {
    if i < n { FindFirst(s, pat, i + 1, n); }
  }

  /** A pattern with a character the text lacks is not found. */
  lemma {:induction false} FindNone(s: string, pat: string, k: nat, i: nat)
    requires k < |pat| && pat[k] !in s
    ensures Find(s, pat, i).None?
    decreases |s| - i
  {
    if i < |s| {
      assert i + |pat| <= |s| ==> s[i..i + |pat|][k] == s[i + k];
      FindNone(s, pat, k, i + 1);
    }
  }

  /** A file name pattern is first found where the directory part ends. */
  lemma NoEarlierMatch(dir: string, pat: string, rest: string, k: nat, i: nat)
    requires dir != "" && dir[|dir| - 1] == '/' && '/' !in pat && k < |pat| && pat[k] !in dir && i < |dir|
    ensures !MatchesAt(dir + (pat + rest), pat, i)
  {
    var s := dir + (pat + rest);
    if i + k < |dir| {
      assert s[i + k] == dir[i + k];
      assert i + |pat| <= |s| ==> s[i..i + |pat|][k] == s[i + k];
    } else {
      var j := |dir| - 1 - i;
      assert s[i + j] == '/' && pat[j] in pat;
      assert i + |pat| <= |s| ==> s[i..i + |pat|][j] == s[i + j];
    }
  }

  lemma FoundAfterDir(dir: string, pat: string, rest: string, k: nat)
    requires dir != "" && dir[|dir| - 1] == '/' && '/' !in pat && k < |pat| && pat[k] !in dir
    ensures Find(dir + (pat + rest), pat, 0) == Some(|dir|) && (dir + (pat + rest))[|dir| + |pat|..] == rest
  {
    var s := dir + (pat + rest);
    assert s[|dir|..|dir| + |pat|] == pat;
    forall j | 0 <= j < |dir| ensures !MatchesAt(s, pat, j) { NoEarlierMatch(dir, pat, rest, k, j); }
    FindFirst(s, pat, 0, |dir|);
  }

  lemma PrefixChars(db: DbName, c: char)
    requires c !in "backups/incr0123456789abcdef-"
    ensures c !in Prefix(db)
  {
  }

  lemma {:induction false} UpToDotOf(digits: string, rest: string)
    requires '.' !in digits
    ensures UpToDot(digits + "." + rest) == digits
  {
    var s := digits + "." + rest;
    if digits != "" {
      assert s[1..] == digits[1..] + "." + rest;
      UpToDotOf(digits[1..], rest);
      assert [digits[0]] + digits[1..] == digits;
    }
  }

  lemma RevReads(rev: Rev, ext: string)
    ensures ParseU128(UpToDot(Decimal.PrintNat(rev) + ("." + ext))) == Some(rev)
  {
    var d := Decimal.PrintNat(rev);
    assert '.' !in d;
    assert d + ("." + ext) == d + "." + ext;
    UpToDotOf(d, ext);
    Decimal.NatRoundTrip(rev);
  }

  lemma SnapKeyReads(db: DbName, rev: Rev)
    ensures ParseRev(SnapKey(db, rev)) == Some(rev) && IsSnap(SnapKey(db, rev))
  {
    PrefixChars(db, 'h');
    FoundAfterDir(Prefix(db), "snapshot-", Decimal.PrintNat(rev) + ".sqlite", 5);
    RevReads(rev, "sqlite");
    assert "." + "sqlite" == ".sqlite";
  }

  lemma NoSnapshotInWalKey(db: DbName, rev: Rev)
    ensures 'h' !in WalKey(db, rev)
  {
    PrefixChars(db, 'h');
    var d := Decimal.PrintNat(rev);
    assert 'h' !in d && 'h' !in "wal-" && 'h' !in ".sqlite-wal";
    assert 'h' !in d + ".sqlite-wal";
    assert 'h' !in "wal-" + (d + ".sqlite-wal");
  }

  lemma WalKeyIsNoSnap(db: DbName, rev: Rev)
    ensures Find(WalKey(db, rev), "snapshot-", 0).None?
  {
    NoSnapshotInWalKey(db, rev);
    FindNone(WalKey(db, rev), "snapshot-", 5, 0);
  }

  lemma WalKeyFound(db: DbName, rev: Rev)
    ensures Find(WalKey(db, rev), "wal-", 0) == Some(|Prefix(db)|) && |Prefix(db)| + 4 <= |WalKey(db, rev)|
    ensures WalKey(db, rev)[|Prefix(db)| + 4..] == Decimal.PrintNat(rev) + ".sqlite-wal"
  {
    PrefixChars(db, 'w');
    FoundAfterDir(Prefix(db), "wal-", Decimal.PrintNat(rev) + ".sqlite-wal", 0);
  }

  lemma ParseWal(name: string, i: nat, rev: Rev)
    requires Find(name, "snapshot-", 0).None? && Find(name, "wal-", 0) == Some(i) && i + 4 <= |name|
    requires ParseU128(UpToDot(name[i + 4..])) == Some(rev)
    ensures ParseRev(name) == Some(rev) && IsWal(name)
  {
  }

  lemma WalKeyReads(db: DbName, rev: Rev)
    ensures ParseRev(WalKey(db, rev)) == Some(rev) && IsWal(WalKey(db, rev))
  {
    WalKeyIsNoSnap(db, rev);
    WalKeyFound(db, rev);
    assert "." + "sqlite-wal" == ".sqlite-wal";
    RevReads(rev, "sqlite-wal");
    ParseWal(WalKey(db, rev), |Prefix(db)|, rev);
  }

  // ---- keys of different Cells are apart ----

  predicate Under(name: string, db: DbName) { |Prefix(db)| <= |name| && name[..|Prefix(db)|] == Prefix(db) }

  lemma PrefixesApart(a: DbName, b: DbName, rest: string)
    requires Under(Prefix(a) + rest, b)
    ensures a == b
  {
    var s := Prefix(a) + rest;
    var y := s[|Prefix(b)|..];
    assert s == Prefix(b) + y;
    assert s[8..] == a + "/" + ("incr/" + rest);
    assert s[8..] == b + "/" + ("incr/" + y);
    SplitAt('/', a, "incr/" + rest, b, "incr/" + y);
  }
}
