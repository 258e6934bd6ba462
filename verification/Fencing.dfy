/** Generation fencing and failover of one Cell: the directory record (crates/metadata/src/store.rs), the
    failover sequence (crates/api-server/src/failover.rs), the generation check on each Data Node
    (crates/data-node/src/lib.rs). First the operations in place, then the protocol with everything
    interleaved: concurrent failovers, lost, late and repeated fences, restarts, arbitrary routing. */
module Fencing {
  import opened Base

  type Node = nat

  datatype Record = Record(storage: Option<Node>, replica: Option<Node>, generation: int)

  /** Promotion moves the Cell to its replica, consumes the replica and opens a new generation. */
  function Promoted(r: Record): Record
    requires r.replica.Some?
  {
    Record(r.replica, None, r.generation + 1)
  }

  function Migrated(r: Record, node: Node): Record { r.(storage := Some(node), generation := r.generation + 1) }

  function ResetRecord(r: Record): Record { r.(generation := r.generation + 1) }

  /** The marker a demoted primary is fenced with. */
  const DEMOTED: int := I64_MAX

  /** The id of a Cell, as it is printed. */
  type CellId = string

  datatype Cell = Cell(tenant: nat, id: CellId)

  datatype Name = Name(tenant: nat, text: string)

  function Without(text: string, c: char): string {
    if text == "" then ""
    else Without(text[..|text| - 1], c) + if text[|text| - 1] == c then "" else [text[|text| - 1]]
  }

  /** The name of a Cell that is created without one; it is not checked against the names in use. */
  function DefaultName(id: CellId): string {
    var digits := Without(id, '-');
    "cell-" + if |digits| >= 8 then digits[..8] else ""
  }

  lemma {:induction false} WithoutConcat(a: string, b: string, c: char)
    ensures Without(a + b, c) == Without(a, c) + Without(b, c)
    decreases |b|
  {
    if b == "" {
      assert a + b == a;
    } else {
      WithoutConcat(a, b[..|b| - 1], c);
      assert (a + b)[..|a + b| - 1] == a + b[..|b| - 1];
    }
  }

  lemma {:induction false} WithoutNothing(text: string, c: char)
    requires c !in text
    ensures Without(text, c) == text
    decreases |text|
  {
    if text != "" {
      WithoutNothing(text[..|text| - 1], c);
      assert text == text[..|text| - 1] + [text[|text| - 1]];
    }
  }

  /** The default name is made of the first eight digits of the id; too short an id leaves only the prefix. */
  lemma DefaultNameIsFirstEight(first: string, rest: string)
    requires '-' !in first
    ensures |first| == 8 ==> DefaultName(first + rest) == "cell-" + first
    ensures |first| < 8 ==> DefaultName(first) == "cell-"
  {
    WithoutConcat(first, rest, '-');
    WithoutNothing(first, '-');
    if |first| == 8 { assert (first + Without(rest, '-'))[..8] == first; }
  }

  class Directory {
    var databases: map<Cell, Record>
    var names: map<Name, CellId>

    constructor ()
      ensures databases == map[] && names == map[]
    {
      databases, names := map[], map[];
    }

    method CreateDatabase(cell: Cell, storage: Option<Node>, name: Option<string>) returns (r: Result<Record>)
      modifies this
      ensures r == if cell in old(databases) then Err(AlreadyExists)
                   else if name.Some? && Name(cell.tenant, name.value) in old(names) then Err(NameTaken)
                   else Ok(Record(storage, None, 0))
      ensures databases == if r.Ok? then old(databases)[cell := r.value] else old(databases)
      ensures var text := if name.Some? then name.value else DefaultName(cell.id);
              names == if r.Ok? then old(names)[Name(cell.tenant, text) := cell.id] else old(names)
    {
      if cell in databases { return Err(AlreadyExists); }
      var text;
      if name.Some? {
        if Name(cell.tenant, name.value) in names { return Err(NameTaken); }
        text := name.value;
      } else {
        text := DefaultName(cell.id);
      }
      names := names[Name(cell.tenant, text) := cell.id];
      databases := databases[cell := Record(storage, None, 0)];
      r := Ok(databases[cell]);
    }

    method SetReplicaNode(cell: Cell, replica: Option<Node>) returns (r: Result<Record>)
      modifies this`databases
      ensures r == if cell in old(databases) then Ok(old(databases)[cell].(replica := replica)) else Err(NotFound)
      ensures databases == if r.Ok? then old(databases)[cell := r.value] else old(databases)
    {
      if cell !in databases { return Err(NotFound); }
      databases := databases[cell := databases[cell].(replica := replica)];
      r := Ok(databases[cell]);
    }

    method PromoteReplica(cell: Cell) returns (r: Result<Record>)
      modifies this`databases
      ensures r == if cell !in old(databases) then Err(NotFound)
                   else if old(databases)[cell].replica.None? then Err(Internal)
                   else Ok(Promoted(old(databases)[cell]))
      ensures r.Ok? ==>
                r.value == Record(old(databases)[cell].replica, None, old(databases)[cell].generation + 1)
      ensures databases == if r.Ok? then old(databases)[cell := r.value] else old(databases)
    {
      if cell !in databases { return Err(NotFound); }
      var record := databases[cell];
      if record.replica.None? { return Err(Internal); }
      record := record.(storage := Some(record.replica.value));
      record := record.(replica := None);
      record := record.(generation := record.generation + 1);
      databases := databases[cell := record];
      r := Ok(record);
    }

    method MigrateDatabase(cell: Cell, node: Node) returns (r: Result<Record>)
      modifies this`databases
      ensures r == if cell in old(databases) then Ok(Migrated(old(databases)[cell], node)) else Err(NotFound)
      ensures r.Ok? ==>
                r.value == Record(Some(node), old(databases)[cell].replica, old(databases)[cell].generation + 1)
      ensures databases == if r.Ok? then old(databases)[cell := r.value] else old(databases)
    {
      if cell !in databases { return Err(NotFound); }
      var record := databases[cell].(storage := Some(node));
      databases := databases[cell := record.(generation := record.generation + 1)];
      r := Ok(databases[cell]);
    }

    method ResetDatabase(cell: Cell) returns (r: Result<Record>)
      modifies this`databases
      ensures r == if cell in old(databases) then Ok(ResetRecord(old(databases)[cell])) else Err(NotFound)
      ensures r.Ok? ==> r.value == old(databases)[cell].(generation := old(databases)[cell].generation + 1)
      ensures databases == if r.Ok? then old(databases)[cell := r.value] else old(databases)
    {
      if cell !in databases { return Err(NotFound); }
      databases := databases[cell := databases[cell].(generation := databases[cell].generation + 1)];
      r := Ok(databases[cell]);
    }
  }

  /** A node's generation for a Cell: the last fence it received since it started, 0 before any. */
  function GenerationOf<K(==)>(generations: map<K, int>, key: K): int {
    if key in generations then generations[key] else 0
  }

  class DataNode {
    var generations: map<CellId, int>

    constructor ()
      ensures generations == map[]
    {
      generations := map[];
    }

    method FenceCell(cell: CellId, generation: int)
      modifies this
      ensures generations == old(generations)[cell := generation]
    {
      generations := generations[cell := generation];
    }

    method CheckGeneration(cell: CellId, generation: int) returns (r: Result<()>)
      ensures r == if generation == GenerationOf(generations, cell) then Ok(()) else Err(Forbidden)
    {
      var cur := if cell in generations then generations[cell] else 0;
      if generation != cur { return Err(Forbidden); }
      r := Ok(());
    }
  }

  datatype NodeCall = FenceCall(cell: CellId, generation: int) | Restarted

  /** A node's generations after fence calls and restarts; a restart forgets them. */
  function GenerationsAfter(calls: seq<NodeCall>): map<CellId, int> {
    if calls == [] then map[]
    else
      match calls[|calls| - 1]
      case FenceCall(cell, g) => GenerationsAfter(calls[..|calls| - 1])[cell := g]
      case Restarted => map[]
  }

  /** Call `i` is the last fence of the cell, and no restart follows it. */
  predicate LastFence(calls: seq<NodeCall>, cell: CellId, i: nat) {
    && i < |calls| && calls[i].FenceCall? && calls[i].cell == cell
    && forall j :: i < j < |calls| ==> calls[j].FenceCall? && calls[j].cell != cell
  }

  /** After any calls a node accepts exactly the generation of the last fence since it started, and 0 if there was
      none. */
  lemma {:induction false} AcceptsLastFence(calls: seq<NodeCall>, cell: CellId)
    ensures forall i: nat :: LastFence(calls, cell, i) ==>
              GenerationOf(GenerationsAfter(calls), cell) == calls[i].generation
    ensures (forall i: nat :: !LastFence(calls, cell, i)) ==> GenerationOf(GenerationsAfter(calls), cell) == 0
    decreases |calls|
  {
    if calls != [] {
      var n := |calls| - 1;
      var init := calls[..n];
      AcceptsLastFence(init, cell);
      if calls[n].FenceCall? && calls[n].cell == cell {
        assert LastFence(calls, cell, n);
      } else if calls[n].FenceCall? {
        forall i: nat ensures LastFence(calls, cell, i) <==> LastFence(init, cell, i) {
          if LastFence(init, cell, i) { assert forall j :: i < j < n ==> calls[j] == init[j]; }
          if LastFence(calls, cell, i) { assert forall j :: i < j < n ==> init[j] == calls[j]; }
        }
      }
    }
  }

  /** What a fence does to the nodes: only the addressed node, if it hears it, and only for this Cell. */
  ghost predicate OnlyFenced(before: map<Node, map<CellId, int>>, after: map<Node, map<CellId, int>>, cell: CellId,
                             fenced: map<Node, int>)
  {
    && before.Keys == after.Keys
    && forall n :: n in before ==> after[n] == if n in fenced then before[n][cell := fenced[n]] else before[n]
  }

  /** The fences of one failover: the new primary gets the new generation, the old primary the marker;
      `heard` are the nodes whose fence call goes through. */
  function Fences(record: Record, heard: set<Node>): map<Node, int>
    requires record.replica.Some?
  {
    map n | n in heard && (Some(n) == record.replica || Some(n) == record.storage)
      :: if Some(n) == record.replica then record.generation + 1 else DEMOTED
  }

  ghost function Local(nodes: map<Node, DataNode>): map<Node, map<CellId, int>>
    reads nodes.Values
  {
    map n | n in nodes :: nodes[n].generations
  }

  /** One failover with nothing interleaved. `nodes` are the nodes with a known address, `caughtUp` whether
      the replica could pull the archive, `heard` which fence calls succeed. It either fails before the
      promotion and changes nothing, or promotes and ignores lost fences. */
  method FailoverCell(dir: Directory, cell: Cell, nodes: map<Node, DataNode>, caughtUp: bool, heard: set<Node>)
    returns (r: Result<Record>)
    requires forall a, b :: a in nodes && b in nodes && a != b ==> nodes[a] != nodes[b]
    requires heard <= nodes.Keys
    modifies dir`databases, nodes.Values
    ensures r.Err? ==> dir.databases == old(dir.databases) && Local(nodes) == old(Local(nodes))
    ensures r.Ok? ==>
              && cell in old(dir.databases) && old(dir.databases)[cell].replica.Some?
              && r.value == Promoted(old(dir.databases)[cell])
              && dir.databases == old(dir.databases)[cell := r.value]
              && OnlyFenced(old(Local(nodes)), Local(nodes), cell.id, Fences(old(dir.databases)[cell], heard))
    ensures r.Ok? <==> cell in old(dir.databases) && old(dir.databases)[cell].replica.Some?
                       && old(dir.databases)[cell].replica.value in nodes && caughtUp
    ensures r == Err(NotFound) <==> cell !in old(dir.databases)
  {
    if cell !in dir.databases { return Err(NotFound); }
    var record := dir.databases[cell];
    if record.replica.None? { return Err(Internal); }
    var replica := record.replica.value;
    if replica !in nodes { return Err(Internal); }
    if !caughtUp { return Err(Internal); }
    var promoted := dir.PromoteReplica(cell);
    if replica in heard {
      nodes[replica].FenceCell(cell.id, promoted.value.generation);
    }
    if record.storage.Some? && record.storage.value != replica && record.storage.value in heard {
      nodes[record.storage.value].FenceCell(cell.id, DEMOTED);
    }
    r := promoted;
  }

  /** What a failover does to the nodes' checks, for every record and every set of fences that get through. The new
      primary that hears its fence takes exactly writes of the new generation. The former primary, if it is another
      node and hears its fence, takes none but those marked i64::MAX. Everything else is checked as before. */
  lemma FailoverFences(record: Record, heard: set<Node>, before: map<Node, map<CellId, int>>,
                       after: map<Node, map<CellId, int>>, cell: CellId, n: Node)
    requires record.replica.Some? && n in before && OnlyFenced(before, after, cell, Fences(record, heard))
    ensures n in after
    ensures forall other :: other != cell ==> GenerationOf(after[n], other) == GenerationOf(before[n], other)
    ensures n in heard && n == record.replica.value ==> GenerationOf(after[n], cell) == record.generation + 1
    ensures n in heard && n != record.replica.value && record.storage == Some(n) ==>
              GenerationOf(after[n], cell) == I64_MAX
    ensures n !in heard || (n != record.replica.value && record.storage != Some(n)) ==> after[n] == before[n]
  {
  }

  // ---- the protocol of one Cell, interleaved ----

  /** Where a failover stands: it remembers the record it read, not the one it promotes. */
  datatype Failover =
    | HasRead(former: Option<Node>, replica: Node)
    | HasPromoted(former: Option<Node>, replica: Node, generation: int)
    | HasFencedNew(former: Option<Node>, replica: Node)

  datatype Fence = Fence(node: Node, generation: int)

  datatype State = State(
    dir: Record,
    local: map<Node, int>,
    failovers: map<nat, Failover>,
    sent: set<Fence>,
    /** which node each promotion's generation was handed to */
    issued: map<int, Node>,
    /** generations opened by reset or migrate */
    bumped: set<int>,
    accepted: set<Fence>)

  datatype Event =
    | SetReplica(replica: Option<Node>)
    | Reset
    | Migrate(node: Node)
    | Start(f: nat)
    | Promote(f: nat)
    | FenceNew(f: nat)
    | FenceOld(f: nat)
    | GiveUp(f: nat)
    | Deliver(fence: Fence)
    | Restart(n: Node)
    | Write(n: Node, generation: int)

  function Init(storage: Option<Node>): State {
    State(Record(storage, None, 0), map[], map[], {}, map[], {}, {})
  }

  predicate Accepts(s: State, n: Node, generation: int) {
    generation == GenerationOf(s.local, n)
  }

  /** Sent fences may be delivered at any later time, any number of times, or never. Writes carry any
      generation to any node: routing is left entirely free. */
  function Next(s: State, e: Event): State {
    match e
    case SetReplica(node) => s.(dir := s.dir.(replica := node))
    case Reset => s.(dir := ResetRecord(s.dir), bumped := s.bumped + {s.dir.generation + 1})
    case Migrate(node) => s.(dir := Migrated(s.dir, node), bumped := s.bumped + {s.dir.generation + 1})
    case Start(f) =>
      if f !in s.failovers && s.dir.replica.Some? then
        s.(failovers := s.failovers[f := HasRead(s.dir.storage, s.dir.replica.value)])
      else s
    case Promote(f) =>
      if f in s.failovers && s.failovers[f].HasRead? && s.dir.replica.Some? then
        var gen := s.dir.generation + 1;
        s.(dir := Promoted(s.dir), issued := s.issued[gen := s.failovers[f].replica],
           failovers := s.failovers[f := HasPromoted(s.failovers[f].former, s.failovers[f].replica, gen)])
      else s
    case FenceNew(f) =>
      if f in s.failovers && s.failovers[f].HasPromoted? then
        s.(sent := s.sent + {Fence(s.failovers[f].replica, s.failovers[f].generation)},
           failovers := s.failovers[f := HasFencedNew(s.failovers[f].former, s.failovers[f].replica)])
      else s
    case FenceOld(f) =>
      if f in s.failovers && s.failovers[f].HasFencedNew? then
        s.(sent := if s.failovers[f].former.Some? && s.failovers[f].former.value != s.failovers[f].replica
                   then s.sent + {Fence(s.failovers[f].former.value, DEMOTED)} else s.sent,
           failovers := s.failovers - {f})
      else s
    case GiveUp(f) => s.(failovers := s.failovers - {f})
    case Deliver(fence) =>
      if fence in s.sent then s.(local := s.local[fence.node := fence.generation]) else s
    case Restart(n) => s.(local := s.local - {n})
    case Write(n, g) => if Accepts(s, n, g) then s.(accepted := s.accepted + {Fence(n, g)}) else s
  }

  function Run(s: State, events: seq<Event>): State
    decreases |events|
  {
    if events == [] then s else Next(Run(s, events[..|events| - 1]), events[|events| - 1])
  }

  // ---- the invariant: a generation belongs to the one node it was issued to ----

  predicate Owned(s: State, n: Node, g: int) {
    g == DEMOTED || (g in s.issued && s.issued[g] == n)
  }

  ghost predicate Inv(s: State) {
    && 0 <= s.dir.generation
    && (forall g :: g in s.issued ==> 0 < g <= s.dir.generation && g !in s.bumped)
    && (forall g :: g in s.bumped ==> 0 < g <= s.dir.generation)
    && (forall f :: f in s.failovers && s.failovers[f].HasPromoted? ==>
          s.failovers[f].generation in s.issued && s.issued[s.failovers[f].generation] == s.failovers[f].replica)
    && (forall x :: x in s.sent ==> Owned(s, x.node, x.generation))
    && (forall n :: n in s.local ==> Owned(s, n, s.local[n]))
    && (forall x :: x in s.accepted ==> x.generation == 0 || Owned(s, x.node, x.generation))
  }

  lemma NextOk(s: State, e: Event)
    requires Inv(s)
    ensures Inv(Next(s, e))
  {
    if e.Promote? && e.f in s.failovers && s.failovers[e.f].HasRead? && s.dir.replica.Some? {
      PromoteOk(s, e.f);
    }
  }

  lemma PromoteOk(s: State, f: nat)
    requires Inv(s) && f in s.failovers && s.failovers[f].HasRead? && s.dir.replica.Some?
    ensures Inv(Next(s, Promote(f)))
  {
    var n := Next(s, Promote(f));
    forall node: Node, g | Owned(s, node, g) ensures Owned(n, node, g) {}
  }

  lemma {:induction false} RunOk(s: State, events: seq<Event>)
    requires Inv(s)
    ensures Inv(Run(s, events))
    decreases |events|
  {
    if events != [] {
      RunOk(s, events[..|events| - 1]);
      NextOk(Run(s, events[..|events| - 1]), events[|events| - 1]);
    }
  }

  // ---- no split brain ----

  /** No two nodes ever accept a write of the same generation `g`, in any run. */
  ghost predicate NeverSplit(g: int) {
    forall storage: Option<Node>, events: seq<Event>, a: Node, b: Node ::
      Fence(a, g) in Run(Init(storage), events).accepted && Fence(b, g) in Run(Init(storage), events).accepted ==>
        a == b
  }

  lemma AcceptedByOwner(storage: Option<Node>, events: seq<Event>, n: Node, g: int)
    requires Fence(n, g) in Run(Init(storage), events).accepted && g != 0 && g != DEMOTED
    ensures var s := Run(Init(storage), events); g in s.issued && s.issued[g] == n && g !in s.bumped
  {
    RunOk(Init(storage), events);
    assert Owned(Run(Init(storage), events), n, g);
  }

  /** Exactly the generations 0 and i64::MAX can be accepted on two nodes: 0 is every node's start value,
      i64::MAX is every demoted node's marker. All others have one owner. */
  lemma NoSplitBrain(g: int)
    ensures NeverSplit(g) <==> g != 0 && g != DEMOTED
  {
    if g != 0 && g != DEMOTED {
      forall storage: Option<Node>, events: seq<Event>, a: Node, b: Node |
        Fence(a, g) in Run(Init(storage), events).accepted && Fence(b, g) in Run(Init(storage), events).accepted
        ensures a == b
      {
        AcceptedByOwner(storage, events, a, g);
        AcceptedByOwner(storage, events, b, g);
      }
    } else if g == 0 {
      GenerationZeroSplits();
    } else {
      DemotedMarkerSplits();
    }
  }

  // ---- generations over time ----

  /** What one state keeps of an earlier one: generations handed out, bumped and accepted, and their order. */
  ghost predicate Keeps(s: State, n: State) {
    && s.dir.generation <= n.dir.generation && s.bumped <= n.bumped && s.accepted <= n.accepted
    && forall g :: g in s.issued ==> g in n.issued && n.issued[g] == s.issued[g]
  }

  lemma NextKeeps(s: State, e: Event)
    requires Inv(s)
    ensures Keeps(s, Next(s, e))
  {
  }

  /** Generations never go down, and what was handed out, opened by reset or migrate, or accepted stays so. */
  lemma {:induction false} RunMonotone(s: State, events: seq<Event>)
    requires Inv(s)
    ensures Keeps(s, Run(s, events))
    decreases |events|
  {
    if events != [] {
      var init := events[..|events| - 1];
      RunMonotone(s, init);
      RunOk(s, init);
      NextKeeps(Run(s, init), events[|events| - 1]);
    }
  }

  /** A stale route is harmless for a fresh write. Let the write's generation `g` be read from the directory
      after a promotion. Wherever the route cache sends it, and whichever fences were lost, the only node
      that can ever accept it is the one a failover handed `g` to; the former primary refuses it unless
      that is itself. */
  lemma StaleRouteIsHarmless(storage: Option<Node>, before: seq<Event>, f: nat, mid: seq<Event>, rest: seq<Event>,
                             n: Node)
    requires var s := Run(Init(storage), before); f in s.failovers && s.failovers[f].HasRead? && s.dir.replica.Some?
    requires Run(Next(Run(Init(storage), before), Promote(f)), mid).dir.generation < DEMOTED
    ensures var s1 := Run(Init(storage), before);
            var s2 := Run(Next(s1, Promote(f)), mid);
            var s3 := Run(s2, rest);
            var g := s2.dir.generation;
            && s1.dir.generation < g
            && (Accepts(s3, n, g) ==> g in s3.issued && s3.issued[g] == n && g !in s3.bumped)
  {
    var s1 := Run(Init(storage), before);
    var p := Next(s1, Promote(f));
    var s2 := Run(p, mid);
    RunOk(Init(storage), before);
    NextOk(s1, Promote(f));
    RunOk(p, mid);
    RunOk(s2, rest);
    RunMonotone(p, mid);
  }

  /** A generation opened by reset or migrate is never handed to any node: no node accepts a write that
      carries it, in any continuation. */
  lemma BumpedGenerationIsNeverAccepted(storage: Option<Node>, events: seq<Event>, rest: seq<Event>, n: Node, g: int)
    requires g in Run(Init(storage), events).bumped && g != DEMOTED
    ensures !Accepts(Run(Run(Init(storage), events), rest), n, g)
  {
    var s := Run(Init(storage), events);
    RunOk(Init(storage), events);
    RunOk(s, rest);
    RunMonotone(s, rest);
  }

  lemma RunTwo(s: State, a: Event, b: Event)
    ensures Run(s, [a, b]) == Next(Next(s, a), b)
  {
    assert [a, b][..1] == [a] && [a][..0] == [];
    assert Run(s, [a]) == Next(Run(s, []), a);
  }

  lemma {:induction false} RunConcat(s: State, a: seq<Event>, b: seq<Event>)
    ensures Run(s, a + b) == Run(Run(s, a), b)
    decreases |b|
  {
    if b == [] {
      assert a + b == a;
    } else {
      RunConcat(s, a, b[..|b| - 1]);
      assert (a + b)[..|a + b| - 1] == a + b[..|b| - 1];
    }
  }

  lemma GenerationZeroSplits()
    ensures !NeverSplit(0)
  {
    var events := [Write(1, 0), Write(2, 0)];
    RunTwo(Init(Some(1)), Write(1, 0), Write(2, 0));
    assert Fence(1, 0) in Run(Init(Some(1)), events).accepted && Fence(2, 0) in Run(Init(Some(1)), events).accepted;
  }

  // ---- a promotion may strand its generation ----

  /** The directory's primary takes writes of the directory's generation. */
  predicate PrimaryServes(s: State) { s.dir.storage.Some? && Accepts(s, s.dir.storage.value, s.dir.generation) }

  ghost predicate CanServe(s: State) {
    exists rest: seq<Event> :: Run(s, rest).dir == s.dir && PrimaryServes(Run(s, rest))
  }

  lemma FencedPrimaryServes(s: State, f: nat)
    requires f in s.failovers && s.failovers[f].HasPromoted? && s.dir.storage == Some(s.failovers[f].replica)
    requires s.failovers[f].generation == s.dir.generation
    ensures CanServe(s)
  {
    var fence := Fence(s.failovers[f].replica, s.dir.generation);
    RunTwo(s, FenceNew(f), Deliver(fence));
    var n := Next(s, FenceNew(f));
    assert fence in n.sent
           && Run(s, [FenceNew(f), Deliver(fence)]) == n.(local := n.local[fence.node := fence.generation]);
  }

  lemma ServingPrimaryWasIssued(s: State, rest: seq<Event>, g: int)
    requires Inv(s) && g == s.dir.generation && 0 < g < DEMOTED && g in s.issued
    requires Run(s, rest).dir == s.dir && PrimaryServes(Run(s, rest))
    ensures s.dir.storage == Some(s.issued[g])
  {
    var n := Run(s, rest);
    RunOk(s, rest);
    RunMonotone(s, rest);
    assert Owned(n, n.dir.storage.value, g);
  }

  /** A failover reads the replica first and promotes whatever replica the directory names later. In every reachable
      state, the primary it installs can be made to serve the new generation, before the directory changes again,
      exactly when the replica was the same both times. */
  lemma PromotionServesExactly(storage: Option<Node>, events: seq<Event>, f: nat)
    requires var s := Run(Init(storage), events);
             f in s.failovers && s.failovers[f].HasRead? && s.dir.replica.Some? && s.dir.generation + 1 < DEMOTED
    ensures var s := Run(Init(storage), events);
            CanServe(Next(s, Promote(f))) <==> s.dir.replica == Some(s.failovers[f].replica)
  {
    var s := Run(Init(storage), events);
    RunOk(Init(storage), events);
    PromotionServes(s, f);
  }

  lemma PromotionServes(s: State, f: nat)
    requires Inv(s) && f in s.failovers && s.failovers[f].HasRead? && s.dir.replica.Some?
             && s.dir.generation + 1 < DEMOTED
    ensures CanServe(Next(s, Promote(f))) <==> s.dir.replica == Some(s.failovers[f].replica)
  {
    var n, g := Next(s, Promote(f)), s.dir.generation + 1;
    PromoteOk(s, f);
    assert n.dir.generation == g && g in n.issued && n.issued[g] == s.failovers[f].replica
           && n.dir.storage == s.dir.replica;
    if s.dir.replica == Some(s.failovers[f].replica) {
      FencedPrimaryServes(n, f);
    } else {
      forall rest: seq<Event> ensures !(Run(n, rest).dir == n.dir && PrimaryServes(Run(n, rest))) {
        if Run(n, rest).dir == n.dir && PrimaryServes(Run(n, rest)) { ServingPrimaryWasIssued(n, rest, g); }
      }
    }
  }

  /** A Cell that was just migrated or reset takes no writes: the directory names the node and a new generation, and
      no node can be made to accept it before the directory changes again. */
  lemma BumpedCellCannotServe(storage: Option<Node>, events: seq<Event>, node: Node)
    requires Run(Init(storage), events).dir.generation + 1 < DEMOTED
    ensures var s := Run(Init(storage), events);
            var n := Next(s, Migrate(node));
            n.dir == Record(Some(node), s.dir.replica, s.dir.generation + 1) && !CanServe(n)
    ensures var s := Run(Init(storage), events);
            var n := Next(s, Reset);
            n.dir == Record(s.dir.storage, s.dir.replica, s.dir.generation + 1) && !CanServe(n)
  {
    var s := Run(Init(storage), events);
    RunOk(Init(storage), events);
    NextOk(s, Migrate(node));
    NextOk(s, Reset);
    BumpedServesNothing(Next(s, Migrate(node)));
    BumpedServesNothing(Next(s, Reset));
  }

  lemma BumpedServesNothing(s: State)
    requires Inv(s) && s.dir.generation in s.bumped && s.dir.generation < DEMOTED
    ensures !CanServe(s)
  {
    forall rest: seq<Event> ensures !(Run(s, rest).dir == s.dir && PrimaryServes(Run(s, rest))) {
      RunOk(s, rest);
      RunMonotone(s, rest);
    }
  }

  /** It happens: for any two different nodes, changing the replica between the two reads installs a primary that
      refuses its own generation until the directory changes again. */
  lemma ReplicaChangeStrandsTheCell(storage: Option<Node>, a: Node, b: Node)
    requires a != b
    ensures var s := Run(Init(storage), [SetReplica(Some(a)), Start(0)] + [SetReplica(Some(b)), Promote(0)]);
            s.dir == Record(Some(b), None, 1) && !CanServe(s)
  {
    var s0, first := Init(storage), [SetReplica(Some(a)), Start(0)];
    RunTwo(s0, SetReplica(Some(a)), Start(0));
    RunConcat(s0, first, [SetReplica(Some(b)), Promote(0)]);
    var s2 := Run(s0, first);
    RunTwo(s2, SetReplica(Some(b)), Promote(0));
    RunOk(s0, first);
    NextOk(s2, SetReplica(Some(b)));
    PromotionServes(Next(s2, SetReplica(Some(b))), 0);
  }

  // ---- when the primary serves, over whole runs ----

  /** The event decides which generation `n` accepts from then on: a restart, or a fence that was sent to it. */
  predicate Touches(s: State, e: Event, n: Node) {
    e == Restart(n) || (e.Deliver? && e.fence.node == n && e.fence in s.sent)
  }

  /** Event `i` is the last that touches `n`, and it delivers a fence of generation `g`. */
  ghost predicate HeardLast(start: State, events: seq<Event>, n: Node, g: int, i: nat) {
    && i < |events| && events[i] == Deliver(Fence(n, g)) && Touches(Run(start, events[..i]), events[i], n)
    && forall j :: i < j < |events| ==> !Touches(Run(start, events[..j]), events[j], n)
  }

  lemma HeardLastSnoc(start: State, events: seq<Event>, e: Event, n: Node, g: int, i: nat)
    requires !Touches(Run(start, events), e, n)
    ensures HeardLast(start, events + [e], n, g, i) <==> HeardLast(start, events, n, g, i)
  {
    var all := events + [e];
    assert all[..|events|] == events;
    assert forall j :: 0 <= j < |events| ==> all[..j] == events[..j] && all[j] == events[j];
  }

  ghost predicate Heard(start: State, events: seq<Event>, n: Node, g: int) {
    exists i: nat :: HeardLast(start, events, n, g, i)
  }

  predicate Remembers(s: State, n: Node, g: int) { n in s.local && s.local[n] == g }

  lemma TouchDecides(s: State, e: Event, n: Node, g: int)
    ensures Remembers(Next(s, e), n, g) <==>
            if Touches(s, e, n) then e == Deliver(Fence(n, g)) else Remembers(s, n, g)
  {
  }

  lemma HeardSnoc(start: State, events: seq<Event>, e: Event, n: Node, g: int)
    ensures Heard(start, events + [e], n, g) <==>
            if Touches(Run(start, events), e, n) then e == Deliver(Fence(n, g)) else Heard(start, events, n, g)
  {
    var all := events + [e];
    assert all[..|events|] == events;
    if Touches(Run(start, events), e, n) {
      assert forall i: nat :: HeardLast(start, all, n, g, i) ==> i == |events|;
      if e == Deliver(Fence(n, g)) { assert HeardLast(start, all, n, g, |events|); }
    } else {
      forall i: nat ensures HeardLast(start, all, n, g, i) <==> HeardLast(start, events, n, g, i) {
        HeardLastSnoc(start, events, e, n, g, i);
      }
    }
  }

  /** What a node remembers is the last fence delivered to it since it last restarted. */
  lemma {:induction false} RemembersLastHeard(start: State, events: seq<Event>, n: Node, g: int)
    requires n !in start.local
    ensures Remembers(Run(start, events), n, g) <==> Heard(start, events, n, g)
    decreases |events|
  {
    if events != [] {
      var init, e := events[..|events| - 1], events[|events| - 1];
      RemembersLastHeard(start, init, n, g);
      TouchDecides(Run(start, init), e, n, g);
      assert events == init + [e];
      HeardSnoc(start, init, e, n, g);
    }
  }

  /** In every run the primary takes writes of the directory's own generation exactly when the last thing it heard
      since it last restarted is a fence of that generation; for generation 0, when it has heard none. */
  lemma PrimaryServesExactly(storage: Option<Node>, events: seq<Event>)
    ensures var start, s := Init(storage), Run(Init(storage), events);
            PrimaryServes(s) <==>
            && s.dir.storage.Some?
            && if s.dir.generation == 0 then forall g :: !Heard(start, events, s.dir.storage.value, g)
               else Heard(start, events, s.dir.storage.value, s.dir.generation)
  {
    var start, s := Init(storage), Run(Init(storage), events);
    RunOk(start, events);
    if s.dir.storage.Some? {
      var n := s.dir.storage.value;
      forall g ensures Remembers(s, n, g) <==> Heard(start, events, n, g) {
        RemembersLastHeard(start, events, n, g);
      }
      assert Remembers(s, n, GenerationOf(s.local, n)) ==> Owned(s, n, s.local[n]);
    }
  }

  /** A restart of the primary of a Cell that was ever promoted stops the Cell: from then on no node at all takes
      writes of the directory's generation, until a fence is delivered again. */
  lemma RestartStopsTheCell(storage: Option<Node>, events: seq<Event>, node: Node)
    requires var s := Run(Init(storage), events); PrimaryServes(s) && 0 < s.dir.generation < DEMOTED
    ensures var s := Run(Init(storage), events);
            !Accepts(Next(s, Restart(s.dir.storage.value)), node, s.dir.generation)
  {
    var s := Run(Init(storage), events);
    RunOk(Init(storage), events);
    assert Owned(s, s.dir.storage.value, s.dir.generation);
    assert node in s.local ==> Owned(s, node, s.local[node]);
  }

  // ---- one whole failover ----

  /** The events of a failover that is not interrupted and whose fences arrive. */
  function Quiet(f: nat, s: State): seq<Event>
    requires s.dir.replica.Some?
  {
    [Start(f), Promote(f), FenceNew(f), FenceOld(f)]
    + [Deliver(Fence(s.dir.replica.value, s.dir.generation + 1))]
    + (if s.dir.storage.None? || s.dir.storage == s.dir.replica then []
       else [Deliver(Fence(s.dir.storage.value, DEMOTED))])
  }

  lemma StartAndPromote(s: State, f: nat)
    requires f !in s.failovers && s.dir.replica.Some?
    ensures var gen := s.dir.generation + 1;
            Run(s, [Start(f), Promote(f)]) ==
            s.(dir := Promoted(s.dir), issued := s.issued[gen := s.dir.replica.value],
               failovers := s.failovers[f := HasPromoted(s.dir.storage, s.dir.replica.value, gen)])
  {
    RunTwo(s, Start(f), Promote(f));
    var a := Next(s, Start(f));
    assert a.failovers[f := HasPromoted(s.dir.storage, s.dir.replica.value, s.dir.generation + 1)]
        == s.failovers[f := HasPromoted(s.dir.storage, s.dir.replica.value, s.dir.generation + 1)];
  }

  lemma FourSteps(s: State, f: nat)
    requires f !in s.failovers && s.dir.replica.Some?
    ensures var n := Run(s, [Start(f), Promote(f), FenceNew(f), FenceOld(f)]);
            && n.dir == Promoted(s.dir) && n.local == s.local && n.failovers == s.failovers && n.accepted == s.accepted
            && Fence(s.dir.replica.value, s.dir.generation + 1) in n.sent
            && (s.dir.storage.Some? && s.dir.storage != s.dir.replica ==> Fence(s.dir.storage.value, DEMOTED) in n.sent)
  {
    var half := Run(s, [Start(f), Promote(f)]);
    StartAndPromote(s, f);
    RunTwo(half, FenceNew(f), FenceOld(f));
    RunConcat(s, [Start(f), Promote(f)], [FenceNew(f), FenceOld(f)]);
    assert [Start(f), Promote(f)] + [FenceNew(f), FenceOld(f)] == [Start(f), Promote(f), FenceNew(f), FenceOld(f)];
    assert Next(Next(half, FenceNew(f)), FenceOld(f)).failovers == s.failovers;
  }

  /** After an uninterrupted failover the directory's generation is accepted on the new primary and on no
      other node, and the old primary refuses every generation but the marker. */
  lemma QuietFailover(s: State, f: nat)
    requires Inv(s) && f !in s.failovers && s.dir.replica.Some? && s.dir.generation + 1 < DEMOTED
    ensures var n := Run(s, Quiet(f, s));
            && n.dir == Promoted(s.dir) && n.failovers == s.failovers && n.accepted == s.accepted
            && (forall node: Node :: Accepts(n, node, n.dir.generation) <==> Some(node) == n.dir.storage)
            && (s.dir.storage.Some? && s.dir.storage != s.dir.replica ==>
                  forall g :: Accepts(n, s.dir.storage.value, g) <==> g == DEMOTED)
            && (forall node: Node, g :: Some(node) != s.dir.storage && Some(node) != s.dir.replica ==>
                  (Accepts(n, node, g) <==> Accepts(s, node, g)))
  {
    var four := [Start(f), Promote(f), FenceNew(f), FenceOld(f)];
    var m := Run(s, four);
    FourSteps(s, f);
    var e1 := Deliver(Fence(s.dir.replica.value, s.dir.generation + 1));
    RunConcat(s, four, [e1]);
    assert [e1][..0] == [] && Run(m, [e1]) == Next(m, e1);
    if s.dir.storage.Some? && s.dir.storage != s.dir.replica {
      var e2 := Deliver(Fence(s.dir.storage.value, DEMOTED));
      RunConcat(s, four + [e1], [e2]);
      assert [e2][..0] == [] && Run(Next(m, e1), [e2]) == Next(Next(m, e1), e2);
    } else {
      assert Quiet(f, s) == four + [e1];
    }
    forall node: Node | node in s.local ensures s.local[node] != s.dir.generation + 1 {
      assert Owned(s, node, s.local[node]);
    }
  }

  /** What the nodes remember of one Cell. */
  function ForCell(generations: map<Node, map<CellId, int>>, cell: CellId): map<Node, int> {
    map n | n in generations && cell in generations[n] :: generations[n][cell]
  }

  function DeliverIf(heard: set<Node>, fence: Fence): seq<Event> {
    if fence.node in heard then [Deliver(fence)] else []
  }

  /** The steps of a failover with the fences that get through. */
  function FailoverEvents(f: nat, record: Record, heard: set<Node>): seq<Event>
    requires record.replica.Some?
  {
    [Start(f), Promote(f), FenceNew(f), FenceOld(f)]
    + DeliverIf(heard, Fence(record.replica.value, record.generation + 1))
    + if record.storage.Some? && record.storage != record.replica
      then DeliverIf(heard, Fence(record.storage.value, DEMOTED)) else []
  }

  lemma RunDeliverIf(s: State, heard: set<Node>, fence: Fence)
    requires fence in s.sent
    ensures var n := Run(s, DeliverIf(heard, fence));
            n == s.(local := if fence.node in heard then s.local[fence.node := fence.generation] else s.local)
  {
    if fence.node in heard {
      assert [Deliver(fence)][..0] == [] && Run(s, [Deliver(fence)]) == Next(Run(s, []), Deliver(fence));
    }
  }

  /** What is remembered once the fences that get through have arrived. */
  function Remembered(local: map<Node, int>, record: Record, heard: set<Node>): map<Node, int>
    requires record.replica.Some?
  {
    var first := if record.replica.value in heard then local[record.replica.value := record.generation + 1] else local;
    if record.storage.Some? && record.storage != record.replica && record.storage.value in heard
    then first[record.storage.value := DEMOTED] else first
  }

  lemma RememberedAt(local: map<Node, int>, record: Record, heard: set<Node>, n: Node)
    requires record.replica.Some?
    ensures var fences, r := Fences(record, heard), Remembered(local, record, heard);
            && (n in r <==> n in fences || n in local)
            && (n in r ==> r[n] == if n in fences then fences[n] else local[n])
  {
  }

  lemma FencedAt(before: map<Node, map<CellId, int>>, after: map<Node, map<CellId, int>>, cell: CellId,
                 fences: map<Node, int>, n: Node)
    requires OnlyFenced(before, after, cell, fences) && fences.Keys <= before.Keys
    ensures var a, b := ForCell(before, cell), ForCell(after, cell);
            && (n in b <==> n in fences || n in a) && (n in b ==> b[n] == if n in fences then fences[n] else a[n])
  {
    if n in before { assert after[n] == if n in fences then before[n][cell := fences[n]] else before[n]; }
  }

  lemma FencedForCell(before: map<Node, map<CellId, int>>, after: map<Node, map<CellId, int>>, cell: CellId,
                      record: Record, heard: set<Node>)
    requires record.replica.Some? && heard <= before.Keys && OnlyFenced(before, after, cell, Fences(record, heard))
    ensures ForCell(after, cell) == Remembered(ForCell(before, cell), record, heard)
  {
    var b, r := ForCell(after, cell), Remembered(ForCell(before, cell), record, heard);
    forall n: Node ensures (n in b <==> n in r) && (n in b ==> b[n] == r[n]) {
      FencedAt(before, after, cell, Fences(record, heard), n);
      RememberedAt(ForCell(before, cell), record, heard, n);
    }
  }

  /** The failover as code is a run of the protocol: whatever it does to the directory record and to the nodes, the
      steps Start, Promote, FenceNew and FenceOld with the delivered fences do to the protocol's state. */
  lemma FailoverCellIsARun(s: State, f: nat, heard: set<Node>, before: map<Node, map<CellId, int>>,
                           after: map<Node, map<CellId, int>>, cell: CellId)
    requires f !in s.failovers && s.dir.replica.Some? && s.local == ForCell(before, cell)
    requires heard <= before.Keys && OnlyFenced(before, after, cell, Fences(s.dir, heard))
    ensures var n := Run(s, FailoverEvents(f, s.dir, heard));
            n.dir == Promoted(s.dir) && n.local == ForCell(after, cell) && n.failovers == s.failovers
  {
    var four := [Start(f), Promote(f), FenceNew(f), FenceOld(f)];
    var promotion := Fence(s.dir.replica.value, s.dir.generation + 1);
    var m := Run(s, four);
    FourSteps(s, f);
    var first := DeliverIf(heard, promotion);
    RunConcat(s, four, first);
    RunDeliverIf(m, heard, promotion);
    FencedForCell(before, after, cell, s.dir, heard);
    if s.dir.storage.Some? && s.dir.storage != s.dir.replica {
      var former := Fence(s.dir.storage.value, DEMOTED);
      RunConcat(s, four + first, DeliverIf(heard, former));
      RunDeliverIf(Run(m, first), heard, former);
    } else {
      assert FailoverEvents(f, s.dir, heard) == four + first;
    }
  }

  lemma OneThen(s: State, e: Event, rest: seq<Event>)
    ensures Run(s, [e] + rest) == Run(Next(s, e), rest)
  {
    RunConcat(s, [e], rest);
    assert [e][..0] == [] && Run(s, [e]) == Next(Run(s, []), e);
  }

  /** Configuring a replica and failing over to it demotes the primary and touches no third node. */
  lemma Demote(s: State, replica: Node) returns (events: seq<Event>)
    requires Inv(s) && s.failovers == map[] && s.dir.storage.Some? && s.dir.storage.value != replica
             && s.dir.generation + 1 < DEMOTED
    ensures var n := Run(s, events);
            && Inv(n) && n.failovers == map[]
            && n.dir.storage == Some(replica) && n.dir.generation == s.dir.generation + 1
            && Accepts(n, s.dir.storage.value, DEMOTED)
            && forall node: Node :: node != s.dir.storage.value && node != replica && Accepts(s, node, DEMOTED) ==>
                Accepts(n, node, DEMOTED)
  {
    var m := Next(s, SetReplica(Some(replica)));
    events := [SetReplica(Some(replica))] + Quiet(0, m);
    OneThen(s, SetReplica(Some(replica)), Quiet(0, m));
    QuietFailover(m, 0);
    RunOk(m, Quiet(0, m));
    forall node: Node | node != s.dir.storage.value && node != replica && Accepts(s, node, DEMOTED)
      ensures Accepts(Run(s, events), node, DEMOTED)
    {
      assert Accepts(m, node, DEMOTED);
    }
  }

  /** Two failovers in a row leave two demoted nodes, and both accept the marker. */
  lemma DemotedMarkerSplits()
    ensures !NeverSplit(DEMOTED)
  {
    var s0 := Init(Some(1));
    var first := Demote(s0, 2);
    var s1 := Run(s0, first);
    var second := Demote(s1, 3);
    var s2 := Run(s1, second);
    var writes := [Write(1, DEMOTED), Write(2, DEMOTED)];
    RunConcat(s0, first, second);
    RunConcat(s0, first + second, writes);
    RunTwo(s2, Write(1, DEMOTED), Write(2, DEMOTED));
    var events := first + second + writes;
    assert Fence(1, DEMOTED) in Run(s0, events).accepted && Fence(2, DEMOTED) in Run(s0, events).accepted;
  }
}
