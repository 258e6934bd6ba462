/** Incremental archive rounds and restore (crates/data-node/src/backup.rs, crates/data-node/src/lib.rs). A round
    uploads a copy of the main file and, unless it is empty, of the log, under one revision. */
module Archive {
  import opened Base
  import opened ArchiveKeys
  import opened Manager
  import Decimal

  datatype Object = Main(pages: map<int, int>) | Log(frames: seq<Frame>)

  type Objects = map<string, Object>

  /** One uploaded round: the copy was taken under the Cell's lock. */
  datatype Round = Round(db: DbName, rev: Rev, file: File)

  function Upload(objects: Objects, r: Round): Objects {
    var withSnap := objects[SnapKey(r.db, r.rev) := Main(r.file.main)];
    if r.file.wal == [] then withSnap else withSnap[WalKey(r.db, r.rev) := Log(r.file.wal)]
  }

  function Store(rounds: seq<Round>): Objects {
    if rounds == [] then map[] else Upload(Store(rounds[..|rounds| - 1]), rounds[|rounds| - 1])
  }

  // ---- the newest round of a listing ----

  datatype Found = Found(snap: string, wal: Option<string>)

  datatype IncrMeta = IncrMeta(snap: Option<string>, wal: Option<string>)

  predicate SnapAt(name: string, rev: Rev) { IsSnap(name) && ParseRev(name) == Some(rev) }

  predicate WalAt(name: string, rev: Rev) { IsWal(name) && ParseRev(name) == Some(rev) }

  /** The snapshot of the highest listed revision, and the log of that revision if it is listed. */
  ghost predicate Latest(listing: seq<string>, r: Option<Found>) {
    match r
    case None => forall name, rev: Rev :: name in listing ==> !SnapAt(name, rev)
    case Some(f) =>
      exists rev: Rev :: LatestAt(listing, f, rev)
  }

  ghost predicate LatestAt(listing: seq<string>, f: Found, rev: Rev) {
    && f.snap in listing && SnapAt(f.snap, rev) && LogFor(listing, rev, f.wal)
    && (forall name, other: Rev :: name in listing && SnapAt(name, other) ==> other <= rev)
  }

  ghost predicate LogFor(listing: seq<string>, rev: Rev, wal: Option<string>) {
    match wal
    case None => forall name :: name in listing ==> !WalAt(name, rev)
    case Some(w) => w in listing && WalAt(w, rev)
  }

  ghost predicate SnapFor(listing: seq<string>, rev: Rev, snap: Option<string>) {
    match snap
    case None => forall name :: name in listing ==> !SnapAt(name, rev)
    case Some(s) => s in listing && SnapAt(s, rev)
  }

  function MetaAt(byRev: map<Rev, IncrMeta>, rev: Rev): IncrMeta {
    if rev in byRev then byRev[rev] else IncrMeta(None, None)
  }

  /** What the loop knows of one revision after the names in `seen`. */
  ghost predicate Indexed(byRev: map<Rev, IncrMeta>, seen: seq<string>, rev: Rev) {
    SnapFor(seen, rev, MetaAt(byRev, rev).snap) && LogFor(seen, rev, MetaAt(byRev, rev).wal)
  }

  function Note(byRev: map<Rev, IncrMeta>, name: string): map<Rev, IncrMeta> {
    match ParseRev(name)
    case None => byRev
    case Some(rev) =>
      var e := MetaAt(byRev, rev);
      byRev[rev := if IsSnap(name) then e.(snap := Some(name)) else if IsWal(name) then e.(wal := Some(name)) else e]
  }

  lemma NoteIndexes(byRev: map<Rev, IncrMeta>, seen: seq<string>, name: string, rev: Rev)
    requires Indexed(byRev, seen, rev)
    ensures Indexed(Note(byRev, name), seen + [name], rev)
  {
  }

  /** One pass over the listing, in whatever order it comes, then the highest revision that has a snapshot. */
  method LatestIncr(listing: seq<string>) returns (r: Option<Found>)
    ensures Latest(listing, r)
  {
    var byRev: map<Rev, IncrMeta> := map[];
    for i := 0 to |listing|
      invariant forall rev: Rev :: Indexed(byRev, listing[..i], rev)
    {
      ghost var seen := listing[..i];
      assert listing[..i + 1] == seen + [listing[i]];
      var next := Note(byRev, listing[i]);
      forall rev: Rev ensures Indexed(next, seen + [listing[i]], rev) { NoteIndexes(byRev, seen, listing[i], rev); }
      byRev := next;
    }
    assert listing[..|listing|] == listing;
    var best := HighestWithSnap(byRev);
    match best
    case None =>
      r := None;
      forall name, rev: Rev | name in listing ensures !SnapAt(name, rev) { assert Indexed(byRev, listing, rev); }
    case Some(rev) =>
      r := Some(Found(byRev[rev].snap.value, byRev[rev].wal));
      assert Indexed(byRev, listing, rev);
      forall name, other: Rev | name in listing && SnapAt(name, other)
        ensures other <= rev { assert Indexed(byRev, listing, other); }
      assert LatestAt(listing, r.value, rev);
  }

  /** The walk from the highest revision down to the first with a snapshot. */
  method HighestWithSnap(byRev: map<Rev, IncrMeta>) returns (best: Option<Rev>)
    ensures best.Some? ==> best.value in byRev && byRev[best.value].snap.Some?
    ensures forall rev :: rev in byRev && byRev[rev].snap.Some? ==> best.Some? && rev <= best.value
  {
    best := None;
    var rest := byRev.Keys;
    while rest != {}
      invariant rest <= byRev.Keys
      invariant best.Some? ==> best.value in byRev && byRev[best.value].snap.Some?
      invariant forall rev :: rev in byRev && rev !in rest && byRev[rev].snap.Some? ==> best.Some? && rev <= best.value
      decreases rest
    {
      var rev :| rev in rest;
      if byRev[rev].snap.Some? && (best.None? || best.value < rev) { best := Some(rev); }
      rest := rest - {rev};
    }
  }

  // ---- what a restore brings back ----

  /** The main file and log the found keys hold; without a log key the local log is removed. */
  function Restored(objects: Objects, f: Found): Result<File> {
    if f.snap !in objects || !objects[f.snap].Main? then Err(Internal)
    else
      match f.wal
      case None => Ok(File(objects[f.snap].pages, []))
      case Some(w) =>
        if w in objects && objects[w].Log? then Ok(File(objects[f.snap].pages, objects[w].frames)) else Err(Internal)
  }

  /** `listing` holds the archive keys of one Cell, in any order. */
  ghost predicate ListsCell(listing: seq<string>, objects: Objects, db: DbName) {
    forall name :: name in listing <==> name in objects && Under(name, db)
  }

  predicate Of(r: Round, db: DbName, rev: Rev) { r.db == db && r.rev == rev }

  /** `top` is the highest revision among the rounds of `db`. */
  predicate TopRev(rounds: seq<Round>, db: DbName, top: Rev) {
    && (exists i :: 0 <= i < |rounds| && Of(rounds[i], db, top))
    && (forall i :: 0 <= i < |rounds| && rounds[i].db == db ==> rounds[i].rev <= top)
  }

  lemma KeysUnder(db: DbName, rev: Rev, other: DbName)
    ensures Under(SnapKey(db, rev), other) <==> db == other
    ensures Under(WalKey(db, rev), other) <==> db == other
  {
    var snap, wal :=
      "snapshot-" + (Decimal.PrintNat(rev) + ".sqlite"), "wal-" + (Decimal.PrintNat(rev) + ".sqlite-wal");
    if Under(Prefix(db) + snap, other) { PrefixesApart(db, other, snap); }
    if Under(Prefix(db) + wal, other) { PrefixesApart(db, other, wal); }
  }

  /** Different rounds write different keys. */
  lemma KeysInjective(a: DbName, r: Rev, b: DbName, q: Rev)
    ensures SnapKey(a, r) == SnapKey(b, q) <==> a == b && r == q
    ensures WalKey(a, r) == WalKey(b, q) <==> a == b && r == q
    ensures SnapKey(a, r) != WalKey(b, q)
  {
    SnapKeyReads(a, r);
    SnapKeyReads(b, q);
    WalKeyReads(a, r);
    WalKeyReads(b, q);
    KeysUnder(a, r, a);
    KeysUnder(b, q, a);
  }

  // ---- what the rounds of one revision leave in the store ----

  /** The main file of the last round of a revision. */
  function LastMain(rounds: seq<Round>, db: DbName, rev: Rev): Option<map<int, int>> {
    if rounds == [] then None
    else if Of(rounds[|rounds| - 1], db, rev) then Some(rounds[|rounds| - 1].file.main)
    else LastMain(rounds[..|rounds| - 1], db, rev)
  }

  /** The log of the last round of a revision that has one. */
  function LastLog(rounds: seq<Round>, db: DbName, rev: Rev): seq<Frame> {
    if rounds == [] then []
    else if Of(rounds[|rounds| - 1], db, rev) && rounds[|rounds| - 1].file.wal != [] then rounds[|rounds| - 1].file.wal
    else LastLog(rounds[..|rounds| - 1], db, rev)
  }

  /** The two objects of a revision. */
  ghost predicate Holds(objects: Objects, db: DbName, rev: Rev, main: Option<map<int, int>>, log: seq<Frame>) {
    && (SnapKey(db, rev) in objects <==> main.Some?)
    && (main.Some? ==> objects[SnapKey(db, rev)] == Main(main.value))
    && (WalKey(db, rev) in objects <==> log != [])
    && (log != [] ==> objects[WalKey(db, rev)] == Log(log))
  }

  lemma UploadHolds(objects: Objects, n: Round, db: DbName, rev: Rev, main: Option<map<int, int>>, log: seq<Frame>)
    requires Holds(objects, db, rev, main, log)
    ensures Holds(Upload(objects, n), db, rev, if Of(n, db, rev) then Some(n.file.main) else main,
                  if Of(n, db, rev) && n.file.wal != [] then n.file.wal else log)
  {
    KeysInjective(db, rev, n.db, n.rev);
    KeysInjective(n.db, n.rev, db, rev);
  }

  /** An upload replaces the snapshot of its revision and, unless it has no log, the log; nothing else. */
  lemma {:induction false} StoreHolds(rounds: seq<Round>, db: DbName, rev: Rev)
    ensures Holds(Store(rounds), db, rev, LastMain(rounds, db, rev), LastLog(rounds, db, rev))
    decreases |rounds|
  {
    if rounds != [] {
      var init := rounds[..|rounds| - 1];
      StoreHolds(init, db, rev);
      UploadHolds(Store(init), rounds[|rounds| - 1], db, rev, LastMain(init, db, rev), LastLog(init, db, rev));
    }
  }

  /** Every key comes from some round. */
  lemma {:induction false} KeysOfRounds(rounds: seq<Round>, name: string) returns (i: nat)
    requires name in Store(rounds)
    ensures i < |rounds|
            && (name == SnapKey(rounds[i].db, rounds[i].rev) || name == WalKey(rounds[i].db, rounds[i].rev))
    decreases |rounds|
  {
    var n := |rounds| - 1;
    if name in Store(rounds[..n]) {
      i := KeysOfRounds(rounds[..n], name);
    } else {
      i := n;
    }
  }

  /** A listed snapshot (log) of a revision is the key of a round with that revision. */
  lemma ListedKey(rounds: seq<Round>, db: DbName, name: string, rev: Rev) returns (j: nat)
    requires name in Store(rounds) && Under(name, db) && (SnapAt(name, rev) || WalAt(name, rev))
    ensures j < |rounds| && rounds[j].db == db && rounds[j].rev == rev
    ensures name == if SnapAt(name, rev) then SnapKey(db, rev) else WalKey(db, rev)
  {
    j := KeysOfRounds(rounds, name);
    SnapKeyReads(rounds[j].db, rounds[j].rev);
    WalKeyReads(rounds[j].db, rounds[j].rev);
    KeysUnder(rounds[j].db, rounds[j].rev, db);
  }

  lemma LatestIsHigher(listing: seq<string>, key: string, rev: Rev, r: Option<Found>) returns (top: Rev)
    requires Latest(listing, r) && key in listing && SnapAt(key, rev)
    ensures r.Some? && r.value.snap in listing && SnapAt(r.value.snap, top) && LogFor(listing, top, r.value.wal)
            && rev <= top
  {
    assert r.Some?;
    top :| LatestAt(listing, r.value, top);
  }

  lemma NewestKey(rounds: seq<Round>, db: DbName, top: Rev, name: string, rev: Rev)
    requires TopRev(rounds, db, top) && top <= rev
    requires name in Store(rounds) && Under(name, db) && SnapAt(name, rev)
    ensures rev == top && name == SnapKey(db, top)
  {
    var j := ListedKey(rounds, db, name, rev);
  }

  lemma SnapListed(objects: Objects, db: DbName, rev: Rev, listing: seq<string>) returns (key: string)
    requires ListsCell(listing, objects, db) && SnapKey(db, rev) in objects
    ensures key in listing && SnapAt(key, rev)
  {
    key := SnapKey(db, rev);
    SnapKeyReads(db, rev);
    KeysUnder(db, rev, db);
  }

  /** The snapshot found is that of the highest revision of the Cell. */
  lemma FindsNewest(rounds: seq<Round>, db: DbName, listing: seq<string>, top: Rev, r: Option<Found>)
    requires ListsCell(listing, Store(rounds), db) && Latest(listing, r)
    requires TopRev(rounds, db, top) && SnapKey(db, top) in Store(rounds)
    ensures r.Some? && r.value.snap == SnapKey(db, top) && LogFor(listing, top, r.value.wal)
  {
    var key := SnapListed(Store(rounds), db, top, listing);
    var rev := LatestIsHigher(listing, key, top, r);
    NewestKey(rounds, db, top, r.value.snap, rev);
  }

  /** The log found for a revision is its log object, if there is one. */
  lemma FindsLog(rounds: seq<Round>, db: DbName, listing: seq<string>, rev: Rev, wal: Option<string>)
    requires ListsCell(listing, Store(rounds), db) && LogFor(listing, rev, wal)
    ensures wal == if WalKey(db, rev) in Store(rounds) then Some(WalKey(db, rev)) else None
  {
    WalKeyReads(db, rev);
    KeysUnder(db, rev, db);
    if wal.Some? {
      var j := ListedKey(rounds, db, wal.value, rev);
    } else {
      assert !(WalKey(db, rev) in listing && WalAt(WalKey(db, rev), rev));
    }
  }

  function Downloaded(r: Result<File>): Result<Option<File>> {
    match r
    case Ok(f) => Ok(Some(f))
    case Err(e) => Err(e)
  }

  /** What a restore answers for the newest round of a listing. */
  ghost predicate RestoreOutcome(objects: Objects, listing: seq<string>, r: Result<Option<File>>) {
    exists found: Option<Found> :: Latest(listing, found) && r == Answer(objects, found)
  }

  function Answer(objects: Objects, found: Option<Found>): Result<Option<File>> {
    match found
    case None => Ok(None)
    case Some(f) => Downloaded(Restored(objects, f))
  }

  lemma {:induction false} SomeMain(rounds: seq<Round>, db: DbName, rev: Rev, i: nat)
    requires i < |rounds| && Of(rounds[i], db, rev)
    ensures LastMain(rounds, db, rev).Some?
    decreases |rounds|
  {
    if i < |rounds| - 1 { SomeMain(rounds[..|rounds| - 1], db, rev, i); }
  }

  lemma FoundIsRestored(rounds: seq<Round>, db: DbName, listing: seq<string>, top: Rev, found: Option<Found>)
    requires ListsCell(listing, Store(rounds), db) && Latest(listing, found)
    requires TopRev(rounds, db, top) && LastMain(rounds, db, top).Some?
    ensures Answer(Store(rounds), found) == Ok(Some(File(LastMain(rounds, db, top).value, LastLog(rounds, db, top))))
  {
    StoreHolds(rounds, db, top);
    FindsNewest(rounds, db, listing, top, found);
    FindsLog(rounds, db, listing, top, found.value.wal);
  }

  /** After any rounds whatsoever, of any Cells, and whatever the order of the listing: a restore brings back the
      main file of the last round with the Cell's highest revision, and the log of the last such round that has
      one. */
  lemma RestoresTopRevision(rounds: seq<Round>, db: DbName, listing: seq<string>, top: Rev, r: Result<Option<File>>)
    requires ListsCell(listing, Store(rounds), db) && RestoreOutcome(Store(rounds), listing, r)
             && TopRev(rounds, db, top)
    ensures LastMain(rounds, db, top).Some?
    ensures r == Ok(Some(File(LastMain(rounds, db, top).value, LastLog(rounds, db, top))))
  {
    var i :| 0 <= i < |rounds| && Of(rounds[i], db, top);
    SomeMain(rounds, db, top, i);
    var found: Option<Found> :| Latest(listing, found) && r == Answer(Store(rounds), found);
    FoundIsRestored(rounds, db, listing, top, found);
  }

  /** Round `i` is the last of its Cell and revision. */
  predicate IsLast(rounds: seq<Round>, i: nat) {
    i < |rounds| && forall j :: i < j < |rounds| ==> !Of(rounds[j], rounds[i].db, rounds[i].rev)
  }

  /** No other round of its Cell and revision has a log. */
  predicate NoOtherLog(rounds: seq<Round>, i: nat)
    requires i < |rounds|
  {
    forall j :: 0 <= j < |rounds| && j != i && Of(rounds[j], rounds[i].db, rounds[i].rev) ==> rounds[j].file.wal == []
  }

  lemma {:induction false} LastMainIs(rounds: seq<Round>, i: nat)
    requires IsLast(rounds, i)
    ensures LastMain(rounds, rounds[i].db, rounds[i].rev) == Some(rounds[i].file.main)
    decreases |rounds|
  {
    if i < |rounds| - 1 {
      assert !Of(rounds[|rounds| - 1], rounds[i].db, rounds[i].rev);
      LastMainIs(rounds[..|rounds| - 1], i);
    }
  }

  lemma {:induction false} LastLogEmpty(rounds: seq<Round>, db: DbName, rev: Rev)
    ensures LastLog(rounds, db, rev) == [] <==>
            forall j :: 0 <= j < |rounds| && Of(rounds[j], db, rev) ==> rounds[j].file.wal == []
    decreases |rounds|
  {
    if rounds != [] {
      var n := |rounds| - 1;
      LastLogEmpty(rounds[..n], db, rev);
      assert rounds == rounds[..n] + [rounds[n]];
    }
  }

  lemma {:induction false} LastLogIs(rounds: seq<Round>, i: nat)
    requires IsLast(rounds, i) && rounds[i].file.wal != []
    ensures LastLog(rounds, rounds[i].db, rounds[i].rev) == rounds[i].file.wal
    decreases |rounds|
  {
    if i < |rounds| - 1 {
      assert !Of(rounds[|rounds| - 1], rounds[i].db, rounds[i].rev);
      LastLogIs(rounds[..|rounds| - 1], i);
    }
  }

  /** Let round `i` be the last with its Cell's highest revision. A restore brings exactly its files back exactly
      when it has a log or no other round of that revision has one, and in particular when its revision is its
      own. Rounds of other revisions and other Cells may collide freely. */
  lemma RestoresNewestRoundExactly(rounds: seq<Round>, listing: seq<string>, i: nat, r: Result<Option<File>>)
    requires IsLast(rounds, i) && TopRev(rounds, rounds[i].db, rounds[i].rev)
    requires ListsCell(listing, Store(rounds), rounds[i].db) && RestoreOutcome(Store(rounds), listing, r)
    ensures r == Ok(Some(rounds[i].file)) <==> rounds[i].file.wal != [] || NoOtherLog(rounds, i)
  {
    var db, top := rounds[i].db, rounds[i].rev;
    RestoresTopRevision(rounds, db, listing, top, r);
    LastMainIs(rounds, i);
    LastLogEmpty(rounds, db, top);
    if rounds[i].file.wal != [] { LastLogIs(rounds, i); }
  }

  /** Without a round of the Cell, nothing is found. */
  lemma FindsNothing(rounds: seq<Round>, db: DbName, listing: seq<string>, r: Option<Found>)
    requires ListsCell(listing, Store(rounds), db) && Latest(listing, r)
    requires forall j :: 0 <= j < |rounds| ==> rounds[j].db != db
    ensures r.None?
  {
    if r.Some? {
      var rev: Rev :| LatestAt(listing, r.value, rev);
      var j := ListedKey(rounds, db, r.value.snap, rev);
      assert false;
    }
  }

  /** It matters: a write, a round, an overwrite, a checkpoint and a second round in the same millisecond, after any
      earlier rounds, restore the overwritten page. */
  lemma SameRevisionRestoresOldPage(rounds: seq<Round>, db: DbName, rev: Rev, listing: seq<string>,
                                    r: Result<Option<File>>, page: int, before: int, after: int)
    requires before != after && forall i :: 0 <= i < |rounds| && rounds[i].db == db ==> rounds[i].rev < rev
    requires var all := rounds + TwoRounds(db, rev, page, before, after);
             ListsCell(listing, Store(all), db) && RestoreOutcome(Store(all), listing, r)
    ensures Content(TwoRounds(db, rev, page, before, after)[1].file) == map[page := after]
    ensures r.Ok? && r.value.Some? && Content(r.value.value) == map[page := before]
  {
    var two := TwoRounds(db, rev, page, before, after);
    var all, n := rounds + two, |rounds|;
    assert all[n] == two[0] && all[n + 1] == two[1];
    assert Of(all[n + 1], db, rev);
    RestoresTopRevision(all, db, listing, rev, r);
    assert all[..n + 1] == rounds + [two[0]];
    TwoWrites(page, before, after);
  }

  function TwoRounds(db: DbName, rev: Rev, page: int, before: int, after: int): (rounds: seq<Round>)
    ensures |rounds| == 2
  {
    var f := File(map[], [Frame(page, before)]);
    [Round(db, rev, f), Round(db, rev, Checkpoint(f.(wal := f.wal + [Frame(page, after)]), 2))]
  }

  lemma TwoWrites(page: int, before: int, after: int)
    ensures var f := File(map[], [Frame(page, before)]);
            var g := Checkpoint(f.(wal := f.wal + [Frame(page, after)]), 2);
            g == File(map[page := after], []) && Content(g) == map[page := after]
              && Content(File(g.main, f.wal)) == map[page := before]
  {
    var a, b := Frame(page, before), Frame(page, after);
    assert [a] + [b] == [a, b];
    assert [a, b][..1] == [a] && [a][..0] == [];
    assert Writes([a]) == map[page := before];
    assert Writes([a, b]) == map[page := after];
    assert map[page := after] + map[page := before] == map[page := before];
  }

  class ArchiveStore {
    var objects: Objects

    constructor ()
      ensures objects == Store([])
    {
      objects := map[];
    }

    /** Upload one round. */
    method UploadIncr(db: DbName, rev: Rev, snap: map<int, int>, wal: seq<Frame>)
      modifies this
      ensures objects == Upload(old(objects), Round(db, rev, File(snap, wal)))
    {
      objects := objects[SnapKey(db, rev) := Main(snap)];
      if wal != [] {
        objects := objects[WalKey(db, rev) := Log(wal)];
      }
    }

    /** Restore from the newest round of a listing; `None` when it has none. */
    method RestoreFromIncr(listing: seq<string>) returns (r: Result<Option<File>>)
      ensures RestoreOutcome(objects, listing, r)
    {
      var latest := LatestIncr(listing);
      if latest.None? {
        assert Latest(listing, latest);
        return Ok(None);
      }
      r := Download(latest.value);
    }

    /** Fetch the main file and, if the round has one, the log. */
    method Download(f: Found) returns (r: Result<Option<File>>)
      ensures r == Downloaded(Restored(objects, f))
    {
      if f.snap !in objects || !objects[f.snap].Main? { return Err(Internal); }
      var log := [];
      if f.wal.Some? {
        if f.wal.value !in objects || !objects[f.wal.value].Log? { return Err(Internal); }
        log := objects[f.wal.value].frames;
      }
      r := Ok(Some(File(objects[f.snap].pages, log)));
    }
  }
}
