/** The bounded set of open Cells (crates/data-node/src/manager.rs). A Cell on disk is a main file and a
    write-ahead log; what a client can see is the log replayed over the main file. */
module Manager {
  import opened Base

  type Db = nat

  datatype Frame = Frame(page: int, data: int)

  datatype File = File(main: map<int, int>, wal: seq<Frame>)

  // ---- what a file holds ----

  /** The last write to each page. */
  function Writes(wal: seq<Frame>): map<int, int> {
    if wal == [] then map[] else Writes(wal[..|wal| - 1])[wal[|wal| - 1].page := wal[|wal| - 1].data]
  }

  function Content(f: File): map<int, int> { f.main + Writes(f.wal) }

  /** A checkpoint copies the first `copied` frames into the main file and, when that is all of them, truncates
      the log. It may stop early or not start at all. */
  function Checkpoint(f: File, copied: nat): File {
    if copied >= |f.wal| then File(Content(f), []) else File(f.main + Writes(f.wal[..copied]), f.wal)
  }

  /** A page holds what the last frame for it says; a page without a frame is not written. */
  lemma {:induction false} LastFrameWins(wal: seq<Frame>, i: nat)
    requires i < |wal| && forall j :: i < j < |wal| ==> wal[j].page != wal[i].page
    ensures wal[i].page in Writes(wal) && Writes(wal)[wal[i].page] == wal[i].data
    decreases |wal|
  {
    if i < |wal| - 1 { LastFrameWins(wal[..|wal| - 1], i); }
  }

  lemma {:induction false} OnlyFramesWrite(wal: seq<Frame>, page: int)
    ensures page in Writes(wal) <==> exists i :: 0 <= i < |wal| && wal[i].page == page
    decreases |wal|
  {
    if wal != [] {
      OnlyFramesWrite(wal[..|wal| - 1], page);
      assert wal == wal[..|wal| - 1] + [wal[|wal| - 1]];
    }
  }

  lemma {:induction false} WritesOfPrefix(wal: seq<Frame>, n: nat)
    requires n <= |wal|
    ensures Writes(wal[..n]).Keys <= Writes(wal).Keys
    decreases |wal|
  {
    if n < |wal| {
      WritesOfPrefix(wal[..|wal| - 1], n);
      assert wal[..|wal| - 1][..n] == wal[..n];
    } else {
      assert wal[..n] == wal;
    }
  }

  lemma {:induction false} WritesConcat(a: seq<Frame>, b: seq<Frame>)
    ensures Writes(a + b) == Writes(a) + Writes(b)
    decreases |b|
  {
    if b == [] {
      assert a + b == a;
    } else {
      WritesConcat(a, b[..|b| - 1]);
      assert (a + b)[..|a + b| - 1] == a + b[..|b| - 1];
    }
  }

  /** A complete, partial or failed checkpoint leaves the content as it was: frames that stay in the log are
      replayed over pages that already hold them. */
  lemma CheckpointKeepsContent(f: File, copied: nat)
    ensures Content(Checkpoint(f, copied)) == Content(f)
  {
    if copied < |f.wal| {
      WritesOfPrefix(f.wal, copied);
    } else {
      assert Writes([]) == map[];
    }
  }

  /** A committed transaction adds its pages to the content. */
  lemma CommitContent(f: File, frames: seq<Frame>)
    ensures Content(f.(wal := f.wal + frames)) == Content(f) + Writes(frames)
  {
    WritesConcat(f.wal, frames);
  }

  type Files = map<Db, File>

  /** What a caller runs on a connection: from the content it sees, the frames it commits and the answer it gets. */
  type Closure = map<int, int> -> (seq<Frame>, Result<nat>)

  type View = map<Db, map<int, int>>

  /** `view` is the content of every Cell that has a file. */
  ghost predicate Shows(files: Files, view: View) {
    files.Keys == view.Keys && forall d :: d in files ==> view[d] == Content(files[d])
  }

  /** A Cell without a file is empty: opening it creates one. */
  function At(view: View, d: Db): map<int, int> { if d in view then view[d] else map[] }

  lemma ShowsCheckpoint(files: Files, view: View, d: Db, copied: nat)
    requires Shows(files, view) && d in files
    ensures Shows(files[d := Checkpoint(files[d], copied)], view)
  {
    CheckpointKeepsContent(files[d], copied);
  }

  function FileOf(files: Files, d: Db): File { if d in files then files[d] else File(map[], []) }

  /** Opening creates an empty Cell where there was none. */
  function Touched(view: View, d: Db): View { view[d := At(view, d)] }

  function Wrote(view: View, d: Db, frames: seq<Frame>): View { view[d := At(view, d) + Writes(frames)] }

  lemma TouchedThenWrote(view: View, d: Db, frames: seq<Frame>)
    ensures Wrote(Touched(view, d), d, frames) == Wrote(view, d, frames)
  {
  }

  lemma ShowsCommit(files: Files, view: View, d: Db, frames: seq<Frame>)
    requires Shows(files, view)
    ensures var f := FileOf(files, d); Shows(files[d := f.(wal := f.wal + frames)], Wrote(view, d, frames))
  {
    var f := FileOf(files, d);
    CommitContent(f, frames);
    assert Content(File(map[], [])) == map[];
  }

  lemma ShowsCreate(files: Files, view: View, d: Db)
    requires Shows(files, view)
    ensures Shows(files[d := FileOf(files, d)], Touched(view, d))
  {
    assert Content(File(map[], [])) == map[];
  }

  lemma ShowsRemove(files: Files, view: View, d: Db)
    requires Shows(files, view)
    ensures Shows(files - {d}, view - {d})
  {
  }

  /** The files of a data directory; `view` is their content. */
  class Disk {
    var files: Files
    ghost var view: View

    constructor ()
      ensures Valid() && view == map[]
    {
      files, view := map[], map[];
    }

    ghost predicate Valid()
      reads this
    {
      Shows(files, view)
    }

    method CheckpointCell(db: Db, copied: nat)
      requires Valid()
      modifies this`files
      ensures Valid() && view == old(view)
    {
      if db in files {
        ShowsCheckpoint(files, view, db, copied);
        files := files[db := Checkpoint(files[db], copied)];
      }
    }

    method Create(db: Db)
      requires Valid()
      modifies this
      ensures Valid() && view == Touched(old(view), db)
    {
      ShowsCreate(files, view, db);
      files, view := files[db := FileOf(files, db)], Touched(view, db);
    }

    /** Append the frames of a committed transaction to the log. */
    method Commit(db: Db, frames: seq<Frame>)
      requires Valid()
      modifies this
      ensures Valid() && view == Wrote(old(view), db, frames)
    {
      var f := FileOf(files, db);
      ShowsCommit(files, view, db, frames);
      files, view := files[db := f.(wal := f.wal + frames)], Wrote(view, db, frames);
    }

    /** What a connection to `db` reads. */
    method Read(db: Db) returns (content: map<int, int>)
      requires Valid()
      ensures content == At(view, db)
    {
      content := if db in files then Content(files[db]) else map[];
    }

    method Remove(db: Db)
      requires Valid()
      modifies this
      ensures Valid() && view == old(view) - {db}
    {
      ShowsRemove(files, view, db);
      files, view := files - {db}, view - {db};
    }
  }

  // ---- which Cells are open ----

  predicate Oldest(conns: map<Db, int>, v: Db) { v in conns && forall d :: d in conns ==> conns[v] <= conns[d] }

  /** One successful use of a Cell: it is open and freshest, and at the bound the oldest gives way. */
  ghost predicate UseStep(conns: map<Db, int>, db: Db, now: int, maxActive: nat, next: map<Db, int>) {
    if db in conns || |conns| < maxActive then next == conns[db := now]
    else exists v: Db :: Oldest(conns, v) && next == (conns - {v})[db := now]
  }

  /** Setting the stamp again after the closure has run. */
  lemma UseRestamped(conns: map<Db, int>, db: Db, t1: int, t2: int, maxActive: nat, next: map<Db, int>)
    requires UseStep(conns, db, t1, maxActive, next)
    ensures UseStep(conns, db, t2, maxActive, next[db := t2]) && next[db := t2].Keys == next.Keys
  {
    if db in conns || |conns| < maxActive {
      assert conns[db := t1][db := t2] == conns[db := t2];
    } else {
      var v: Db :| Oldest(conns, v) && next == (conns - {v})[db := t1];
      assert (conns - {v})[db := t1][db := t2] == (conns - {v})[db := t2];
    }
  }

  /** At the bound the oldest connection gives way. */
  ghost predicate MadeRoom(conns: map<Db, int>, maxActive: nat, next: map<Db, int>) {
    if |conns| < maxActive then next == conns else exists v: Db :: Oldest(conns, v) && next == conns - {v}
  }

  lemma RoomThenUse(conns: map<Db, int>, db: Db, now: int, maxActive: nat, next: map<Db, int>)
    requires MadeRoom(conns, maxActive, next) && |next| < maxActive && db !in conns
    ensures UseStep(conns, db, now, maxActive, next[db := now])
    ensures |next[db := now]| <= maxActive
  {
    assert next[db := now].Keys == next.Keys + {db};
  }

  lemma WithoutOne(conns: map<Db, int>, db: Db)
    requires db in conns
    ensures (conns - {db}).Keys == conns.Keys - {db} && |conns - {db}| == |conns| - 1
  {
  }

  /** `now` is what is left of `start` when the Cells in `done` were closed. */
  ghost predicate LeftOf(start: map<Db, int>, done: set<Db>, now: map<Db, int>) { now == start - done }

  lemma LeftAfter(start: map<Db, int>, done: set<Db>, now: map<Db, int>, db: Db)
    requires LeftOf(start, done, now)
    ensures LeftOf(start, done + {db}, now - {db})
    ensures db in start && db !in done ==> db in now
  {
  }

  class DbManager {
    var conns: map<Db, int>
    var readonly: set<Db>
    const maxActive: nat
    const disk: Disk

    constructor (maxActiveDbs: nat, dataDir: Disk)
      requires dataDir.Valid()
      ensures conns == map[] && readonly == {} && Valid() && disk == dataDir
      ensures maxActive == if maxActiveDbs < 1 then 1 else maxActiveDbs
    {
      conns, readonly, disk := map[], {}, dataDir;
      maxActive := if maxActiveDbs < 1 then 1 else maxActiveDbs;
    }

    ghost predicate Valid()
      reads this, disk
    {
      1 <= maxActive && |conns| <= maxActive && disk.Valid()
    }

    /** Drop the connection of `db`, checkpointing first. */
    method Close(db: Db, copied: nat)
      requires Valid() && db in conns
      modifies this`conns, disk`files
      ensures Valid() && conns == old(conns) - {db} && |conns| == |old(conns)| - 1 && disk.view == old(disk.view)
    {
      disk.CheckpointCell(db, copied);
      WithoutOne(conns, db);
      conns := conns - {db};
    }

    method EvictLru(copied: nat) returns (victim: Db)
      requires Valid() && conns != map[]
      modifies this`conns, disk`files
      ensures Valid() && Oldest(old(conns), victim) && conns == old(conns) - {victim} && |conns| == |old(conns)| - 1
      ensures disk.view == old(disk.view)
    {
      victim :| victim in conns;
      var rest := conns.Keys - {victim};
      while rest != {}
        invariant rest <= conns.Keys && victim in conns
        invariant forall d :: d in conns.Keys - rest ==> conns[victim] <= conns[d]
        decreases rest
      {
        var d :| d in rest;
        if conns[d] < conns[victim] { victim := d; }
        rest := rest - {d};
      }
      Close(victim, copied);
    }

    method MakeRoom(copied: nat)
      requires Valid()
      modifies this`conns, disk`files
      ensures Valid() && |conns| < maxActive && MadeRoom(old(conns), maxActive, conns)
    {
      if |conns| >= maxActive {
        var victim := EvictLru(copied);
      }
    }

    /** Open a connection for `db`: `opens` and `supported` are the outcomes of opening the file and of the format
        check. */
    method Open(db: Db, opens: bool, supported: bool, now: int, copied: nat) returns (ok: bool)
      requires Valid() && db !in conns
      modifies this, disk
      ensures Valid() && ok == (opens && supported)
      ensures disk.view == if opens then Touched(old(disk.view), db) else old(disk.view)
      ensures readonly == old(readonly) + (if opens then {} else {db})
      ensures if ok then UseStep(old(conns), db, now, maxActive, conns) else MadeRoom(old(conns), maxActive, conns)
    {
      MakeRoom(copied);
      RoomThenUse(old(conns), db, now, maxActive, conns);
      ok := false;
      if opens {
        disk.Create(db);
        if supported {
          conns, ok := conns[db := now], true;
        }
      } else {
        readonly := readonly + {db};
      }
    }

    /** Run a closure on the connection of `db`. It sees the Cell's content, whatever was evicted before. */
    method WithConn(db: Db, opens: bool, supported: bool, f: Closure, now: int, copied: nat) returns (r: Result<nat>)
      requires Valid()
      modifies this, disk
      ensures Valid()
      ensures db in old(conns) || (opens && supported) ==>
                && r == f(At(old(disk.view), db)).1 && UseStep(old(conns), db, now, maxActive, conns)
                && disk.view == Wrote(old(disk.view), db, f(At(old(disk.view), db)).0)
      ensures !(db in old(conns) || (opens && supported)) ==>
                && r == Err(Internal) && MadeRoom(old(conns), maxActive, conns)
                && disk.view == if opens then Touched(old(disk.view), db) else old(disk.view)
      ensures readonly == old(readonly) + (if db in old(conns) || opens then {} else {db})
    {
      if db !in conns {
        var ok := Open(db, opens, supported, now, copied);
        if !ok { return Err(Internal); }
        UseRestamped(old(conns), db, now, now, maxActive, conns);
      }
      var content := disk.Read(db);
      var (frames, answer) := f(content);
      TouchedThenWrote(old(disk.view), db, frames);
      disk.Commit(db, frames);
      assert conns[db := now].Keys == conns.Keys;
      conns := conns[db := now];
      r := answer;
    }

    /** Close a Cell without deleting it. */
    method CloseDatabase(db: Db, copied: nat)
      requires Valid()
      modifies this`conns, disk`files
      ensures Valid() && conns == old(conns) - {db} && disk.view == old(disk.view)
    {
      if db in conns { Close(db, copied); }
    }

    /** Close every connection whose Cell is in `dbs`, in any order. */
    method CloseEach(dbs: set<Db>, copied: map<Db, nat>)
      requires Valid() && dbs <= conns.Keys
      modifies this`conns, disk`files
      ensures Valid() && conns == old(conns) - dbs && disk.view == old(disk.view)
    {
      var rest := dbs;
      ghost var start, done := conns, {};
      while rest != {}
        invariant Valid() && LeftOf(start, done, conns) && rest == dbs - done && done <= dbs
        decreases rest
      {
        var db :| db in rest;
        LeftAfter(start, done, conns, db);
        Close(db, if db in copied then copied[db] else 0);
        rest, done := rest - {db}, done + {db};
      }
      assert done == dbs;
    }

    method CloseAll(copied: map<Db, nat>)
      requires Valid()
      modifies this`conns, disk`files
      ensures Valid() && conns == map[] && disk.view == old(disk.view)
    {
      CloseEach(conns.Keys, copied);
    }

    /** The idle pass of the maintenance task. */
    method SleepIdle(now: int, idleTimeout: nat, copied: map<Db, nat>)
      requires Valid()
      modifies this`conns, disk`files
      ensures Valid() && conns == (map d | d in old(conns) && now - old(conns)[d] <= idleTimeout :: old(conns)[d])
      ensures disk.view == old(disk.view)
    {
      var idle := set d | d in conns && now - conns[d] > idleTimeout;
      CloseEach(idle, copied);
    }

    method DeleteDatabase(db: Db, copied: nat)
      requires Valid()
      modifies this`conns, disk
      ensures Valid() && conns == old(conns) - {db} && disk.view == old(disk.view) - {db}
    {
      if db in conns { Close(db, copied); }
      disk.Remove(db);
    }
  }

  // ---- the bound is invisible to clients ----

  /** A client's call, or the node closing connections on its own account. */
  datatype Call =
    | Work(db: Db, f: Closure, now: int, copied: nat)
    | CloseOne(db: Db, copied: nat)
    | Sleep(now: int, idleTimeout: nat, copiedOf: map<Db, nat>)

  /** What one call does to the contents and answers on a store that keeps every Cell open. */
  function PlainStep(view: View, call: Call): (View, Option<Result<nat>>) {
    match call
    case Work(db, f, _, _) => (Wrote(view, db, f(At(view, db)).0), Some(f(At(view, db)).1))
    case _ => (view, None)
  }

  /** The contents of such a store after the calls. */
  function PlainView(view: View, calls: seq<Call>): View {
    if calls == [] then view else PlainStep(PlainView(view, calls[..|calls| - 1]), calls[|calls| - 1]).0
  }

  /** What such a store answers to call `i`. */
  function PlainAnswer(view: View, calls: seq<Call>, i: nat): Option<Result<nat>>
    requires i < |calls|
  {
    PlainStep(PlainView(view, calls[..i]), calls[i]).1
  }

  /** One call with a successful open. */
  method ServeOne(m: DbManager, call: Call) returns (answer: Option<Result<nat>>)
    requires m.Valid()
    modifies m, m.disk
    ensures m.Valid() && (m.disk.view, answer) == PlainStep(old(m.disk.view), call)
  {
    answer := None;
    match call {
      case Work(db, f, now, copied) =>
        var r := m.WithConn(db, true, true, f, now, copied);
        answer := Some(r);
      case CloseOne(db, copied) => m.CloseDatabase(db, copied);
      case Sleep(now, idleTimeout, copied) => m.SleepIdle(now, idleTimeout, copied);
    }
  }

  /** Over every run of calls with successful opens, whatever is evicted, put to sleep, closed and reopened in
      between, every call is answered as if all Cells were open all the time, and the contents end up the same. */
  method ServeAll(m: DbManager, calls: seq<Call>) returns (answers: seq<Option<Result<nat>>>)
    requires m.Valid()
    modifies m, m.disk
    ensures m.Valid() && m.disk.view == PlainView(old(m.disk.view), calls)
    ensures |answers| == |calls|
    ensures forall i :: 0 <= i < |calls| ==> answers[i] == PlainAnswer(old(m.disk.view), calls, i)
  {
    answers := [];
    for i := 0 to |calls|
      invariant m.Valid() && m.disk.view == PlainView(old(m.disk.view), calls[..i]) && |answers| == i
      invariant forall j :: 0 <= j < i ==> answers[j] == PlainAnswer(old(m.disk.view), calls, j)
    {
      assert calls[..i + 1][..i] == calls[..i];
      var answer := ServeOne(m, calls[i]);
      answers := answers + [answer];
    }
    assert calls[..|calls|] == calls;
  }

  // ---- the open Cells are the most recently used ones ----

  datatype Use = Use(db: Db, stamp: int)

  predicate Increasing(uses: seq<Use>) { forall i, j :: 0 <= i < j < |uses| ==> uses[i].stamp < uses[j].stamp }

  ghost function Used(uses: seq<Use>): set<Db> { set i | 0 <= i < |uses| :: uses[i].db }

  /** The stamp of the latest use. */
  function LastUse(uses: seq<Use>, d: Db): Option<int> {
    if uses == [] then None
    else if uses[|uses| - 1].db == d then Some(uses[|uses| - 1].stamp)
    else LastUse(uses[..|uses| - 1], d)
  }

  /** `d` was used later than `e`. */
  predicate Fresher(uses: seq<Use>, d: Db, e: Db) {
    LastUse(uses, d).Some? && (LastUse(uses, e).Some? ==> LastUse(uses, e).value < LastUse(uses, d).value)
  }

  function Min(a: nat, b: nat): nat { if a < b then a else b }

  /** As many of the used Cells as fit, and each used more recently than every one left out. */
  ghost predicate MostRecent(open: set<Db>, uses: seq<Use>, maxActive: nat) {
    && open <= Used(uses) && |open| == Min(maxActive, |Used(uses)|)
    && forall d, e :: d in open && e in Used(uses) - open ==> Fresher(uses, d, e)
  }

  /** The open Cells after a run of uses, one state per use. */
  ghost predicate Trace(states: seq<map<Db, int>>, uses: seq<Use>, maxActive: nat) {
    && |states| == |uses| + 1 && states[0] == map[]
    && forall i :: 0 <= i < |uses| ==> UseStep(states[i], uses[i].db, uses[i].stamp, maxActive, states[i + 1])
  }

  /** A run of successful uses on a manager with nothing open makes such a trace, whatever the closures do. */
  method UseAll(m: DbManager, uses: seq<Use>, f: Closure, copied: nat) returns (ghost states: seq<map<Db, int>>)
    requires m.Valid() && m.conns == map[]
    modifies m, m.disk
    ensures m.Valid() && Trace(states, uses, m.maxActive) && states[|uses|] == m.conns
  {
    states := [m.conns];
    for i := 0 to |uses|
      invariant m.Valid() && Trace(states, uses[..i], m.maxActive) && states[i] == m.conns
    {
      ghost var before := m.conns;
      var r := m.WithConn(uses[i].db, true, true, f, uses[i].stamp, copied);
      TraceOn(states, uses, i, m.maxActive, m.conns);
      states := states + [m.conns];
    }
    assert uses[..|uses|] == uses;
  }

  lemma TraceOn(states: seq<map<Db, int>>, uses: seq<Use>, i: nat, maxActive: nat, next: map<Db, int>)
    requires i < |uses| && Trace(states, uses[..i], maxActive)
    requires UseStep(states[i], uses[i].db, uses[i].stamp, maxActive, next)
    ensures Trace(states + [next], uses[..i + 1], maxActive)
  {
    var more := states + [next];
    forall j | 0 <= j < i + 1 ensures UseStep(more[j], uses[j].db, uses[j].stamp, maxActive, more[j + 1]) {
      if j < i { assert uses[..i][j] == uses[j]; }
    }
  }

  ghost predicate Stamped(conns: map<Db, int>, uses: seq<Use>) {
    forall d :: d in conns ==> LastUse(uses, d) == Some(conns[d])
  }

  lemma UsedSnoc(uses: seq<Use>, u: Use)
    ensures Used(uses + [u]) == Used(uses) + {u.db}
  {
    var n := uses + [u];
    forall d ensures d in Used(n) <==> d in Used(uses) + {u.db} {
      if d in Used(uses) {
        var i :| 0 <= i < |uses| && uses[i].db == d;
        assert n[i].db == d;
      }
      if d == u.db { assert n[|uses|].db == d; }
    }
  }

  lemma LastUseSnoc(uses: seq<Use>, u: Use, d: Db)
    ensures LastUse(uses + [u], d) == if u.db == d then Some(u.stamp) else LastUse(uses, d)
  {
    assert (uses + [u])[..|uses|] == uses;
  }

  lemma {:induction false} LastUseBound(uses: seq<Use>, d: Db, bound: int)
    requires forall i :: 0 <= i < |uses| ==> uses[i].stamp < bound
    ensures LastUse(uses, d).Some? ==> LastUse(uses, d).value < bound
    ensures d in Used(uses) <==> LastUse(uses, d).Some?
    decreases |uses|
  {
    if uses != [] {
      var init, u := uses[..|uses| - 1], uses[|uses| - 1];
      LastUseBound(init, d, bound);
      UsedSnoc(init, u);
      assert init + [u] == uses;
    }
  }

  lemma StampedNext(conns: map<Db, int>, uses: seq<Use>, u: Use, maxActive: nat, next: map<Db, int>)
    requires Stamped(conns, uses) && UseStep(conns, u.db, u.stamp, maxActive, next)
    ensures Stamped(next, uses + [u])
  {
    forall d | d in next ensures LastUse(uses + [u], d) == Some(next[d]) { LastUseSnoc(uses, u, d); }
  }

  lemma UseGrows(conns: map<Db, int>, db: Db, now: int, maxActive: nat, next: map<Db, int>)
    requires UseStep(conns, db, now, maxActive, next) && (db in conns || |conns.Keys| < maxActive)
    ensures next.Keys == conns.Keys + {db}
  {
    assert |conns.Keys| == |conns|;
    assert conns[db := now].Keys == conns.Keys + {db};
  }

  lemma UseSwaps(conns: map<Db, int>, db: Db, now: int, maxActive: nat, next: map<Db, int>) returns (v: Db)
    requires UseStep(conns, db, now, maxActive, next) && !(db in conns || |conns.Keys| < maxActive)
    ensures Oldest(conns, v) && next.Keys == conns.Keys - {v} + {db}
  {
    assert |conns.Keys| == |conns|;
    v :| Oldest(conns, v) && next == (conns - {v})[db := now];
    assert (conns - {v})[db := now].Keys == conns.Keys - {v} + {db};
  }

  lemma {:induction false} SubsetEqual(a: set<Db>, b: set<Db>)
    requires a <= b && |a| == |b|
    ensures a == b
    decreases |a|
  {
    if a != {} {
      var x :| x in a;
      SubsetEqual(a - {x}, b - {x});
      assert a == a - {x} + {x} && b == b - {x} + {x};
    }
  }

  /** Room left means nothing used is closed. */
  lemma CountGrown(open: set<Db>, used: set<Db>, db: Db, maxActive: nat)
    requires open <= used && |open| == Min(maxActive, |used|) && (db in open || |open| < maxActive)
    ensures |open + {db}| == Min(maxActive, |used + {db}|)
  {
    if db in open {
      assert open + {db} == open && used + {db} == used;
    } else {
      SubsetEqual(open, used);
      assert open + {db} == used + {db} && |open + {db}| == |open| + 1;
    }
  }

  lemma CountSwapped(open: set<Db>, used: set<Db>, v: Db, db: Db, maxActive: nat)
    requires |open| == Min(maxActive, |used|) && maxActive <= |open| && v in open && db !in open
    ensures |open - {v} + {db}| == Min(maxActive, |used + {db}|)
  {
    if db in used { assert used + {db} == used; }
  }

  /** The number of open Cells follows the bound. */
  lemma CountNext(conns: map<Db, int>, uses: seq<Use>, u: Use, maxActive: nat, next: map<Db, int>)
    requires conns.Keys <= Used(uses) && |conns.Keys| == Min(maxActive, |Used(uses)|)
    requires UseStep(conns, u.db, u.stamp, maxActive, next)
    ensures next.Keys <= Used(uses + [u]) && |next.Keys| == Min(maxActive, |Used(uses + [u])|)
  {
    UsedSnoc(uses, u);
    if u.db in conns || |conns.Keys| < maxActive {
      UseGrows(conns, u.db, u.stamp, maxActive, next);
      CountGrown(conns.Keys, Used(uses), u.db, maxActive);
    } else {
      var v := UseSwaps(conns, u.db, u.stamp, maxActive, next);
      CountSwapped(conns.Keys, Used(uses), v, u.db, maxActive);
    }
  }

  /** With increasing stamps, different Cells have different latest stamps. */
  lemma {:induction false} LastUseDistinct(uses: seq<Use>, d: Db, e: Db)
    requires Increasing(uses) && d != e && LastUse(uses, d).Some? && LastUse(uses, e).Some?
    ensures LastUse(uses, d) != LastUse(uses, e)
    decreases |uses|
  {
    var init, u := uses[..|uses| - 1], uses[|uses| - 1];
    if u.db == d {
      LastUseBound(init, e, u.stamp);
    } else if u.db == e {
      LastUseBound(init, d, u.stamp);
    } else {
      LastUseDistinct(init, d, e);
    }
  }

  lemma FresherNext(conns: map<Db, int>, uses: seq<Use>, u: Use, maxActive: nat, next: map<Db, int>, d: Db, e: Db)
    requires Stamped(conns, uses) && MostRecent(conns.Keys, uses, maxActive)
             && UseStep(conns, u.db, u.stamp, maxActive, next)
    requires Increasing(uses) && forall i :: 0 <= i < |uses| ==> uses[i].stamp < u.stamp
    requires d in next && e in Used(uses) && e !in next && e != u.db
    ensures Fresher(uses + [u], d, e)
  {
    LastUseSnoc(uses, u, d);
    LastUseSnoc(uses, u, e);
    LastUseBound(uses, e, u.stamp);
    if u.db in conns || |conns.Keys| < maxActive {
      UseGrows(conns, u.db, u.stamp, maxActive, next);
      assert d != u.db ==> Fresher(uses, d, e);
    } else {
      var v := UseSwaps(conns, u.db, u.stamp, maxActive, next);
      if d != u.db && e == v {
        assert conns[e] <= conns[d];
        LastUseDistinct(uses, d, e);
      } else {
        assert d != u.db ==> Fresher(uses, d, e);
      }
    }
  }

  lemma MostRecentNext(conns: map<Db, int>, uses: seq<Use>, u: Use, maxActive: nat, next: map<Db, int>)
    requires Stamped(conns, uses) && MostRecent(conns.Keys, uses, maxActive)
             && UseStep(conns, u.db, u.stamp, maxActive, next)
    requires Increasing(uses) && forall i :: 0 <= i < |uses| ==> uses[i].stamp < u.stamp
    ensures MostRecent(next.Keys, uses + [u], maxActive)
  {
    CountNext(conns, uses, u, maxActive, next);
    UsedSnoc(uses, u);
    forall d, e | d in next.Keys && e in Used(uses + [u]) - next.Keys ensures Fresher(uses + [u], d, e) {
      assert e != u.db by { assert u.db in next; }
      FresherNext(conns, uses, u, maxActive, next, d, e);
    }
  }

  /** After any run of successful uses with increasing stamps, the open Cells are the most recently used ones, as
      many as the bound allows. */
  lemma {:induction false} OpenAreMostRecent(states: seq<map<Db, int>>, uses: seq<Use>, maxActive: nat)
    requires Trace(states, uses, maxActive) && Increasing(uses)
    ensures Stamped(states[|uses|], uses) && MostRecent(states[|uses|].Keys, uses, maxActive)
    decreases |uses|
  {
    if uses == [] {
      assert states[0].Keys == {};
    } else {
      var n := |uses| - 1;
      var init, u := uses[..n], uses[n];
      assert init + [u] == uses && states[..n + 1][n] == states[n];
      OpenAreMostRecent(states[..n + 1], init, maxActive);
      assert UseStep(states[n], u.db, u.stamp, maxActive, states[n + 1]);
      StampedNext(states[n], init, u, maxActive, states[n + 1]);
      MostRecentNext(states[n], init, u, maxActive, states[n + 1]);
    }
  }

  /** The most recently used set is unique. */
  lemma MostRecentUnique(a: set<Db>, b: set<Db>, uses: seq<Use>, maxActive: nat)
    requires MostRecent(a, uses, maxActive) && MostRecent(b, uses, maxActive)
    ensures a == b
  {
    if a <= b {
      SubsetEqual(a, b);
    } else {
      var d :| d in a && d !in b;
      forall e | e in b ensures e in a { assert Fresher(uses, e, d) && !Fresher(uses, d, e); }
      SubsetEqual(b, a);
    }
  }
}
