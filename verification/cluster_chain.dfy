/** The cluster-chain walker (class `data_run`, method `list`).
    Starting from a file's first cluster, the walker follows 16-bit
    little-endian FAT entries until it reads 0xFFFF. The original loop has no
    cycle guard and runs forever on a cyclic table; it is modelled here by
    `ListFrom`, the same loop cut off after `fuel` steps. `Walk` is the total
    walker: it stops with `CycleDetected` on a revisit, and it agrees with the
    original on every table where the original stops. */
module ClusterChain {
  import opened Results
  import opened Bytes

  const EndOfChain: nat := 0xFFFF

  /** Cluster `c` has a FAT entry: bytes 2c and 2c+1 are in the table. */
  predicate InTable(table: seq<Byte>, c: nat) {
    2 * c + 2 <= |table|
  }

  /** The FAT entry of cluster `c`: the cluster that follows it. */
  function Next(table: seq<Byte>, c: nat): nat
    requires InTable(table, c)
  {
    U16At(table, 2 * c)
  }

  /** One read of the loop: the entry of `c`, or the error the original
      raises when the slice of the entry runs off the table. */
  function Link(table: seq<Byte>, c: nat): (r: Result<nat>)
    ensures r.Ok? ==> r.value < 0x1_0000
  {
    if InTable(table, c) then Ok(Next(table, c)) else Err(StructError)
  }

  /** `Link` is `struct.unpack("<H", table[2c:2c+2])`: the clamped slice is
      short exactly when the entry lies past the end of the table, and
      otherwise it unpacks to the 16-bit little-endian entry. */
  lemma LinkIsUnpack(table: seq<Byte>, c: nat)
    ensures Link(table, c) == Read(table, 2 * c, U16LE)
  {
  }

  // ---------------------------------------------------------------------
  // The original loop, cut off after a number of steps
  // ---------------------------------------------------------------------

  /** How a bounded run of the original loop ends: it returned its list, it
      raised, or it was still looping when the steps ran out. */
  datatype Run = Finished(clusters: seq<nat>) | Raised(error: Error) | OutOfFuel

  /** The loop of `list` with `acc` built so far and `current` its last
      cluster: read the entry of `current`; stop on 0xFFFF, otherwise append
      it and continue from it, at most `fuel` more times. */
  function ListFrom(table: seq<Byte>, current: nat, acc: seq<nat>, fuel: nat): (r: Run)
    ensures r.Raised? ==> r.error == StructError
    ensures r.Finished? ==> acc <= r.clusters && |r.clusters| <= |acc| + fuel
    ensures r.Finished? && |acc| > 0 && acc[|acc| - 1] == current ==>
              Link(table, r.clusters[|r.clusters| - 1]) == Ok(EndOfChain)
    decreases fuel
  {
    match Link(table, current)
    case Err(e) => Raised(e)
    case Ok(next) =>
      if next == EndOfChain then Finished(acc)
      else if fuel == 0 then OutOfFuel
      else ListFrom(table, next, acc + [next], fuel - 1)
  }

  /** `data_run(table, start).list()`, allowed `fuel` trips round its loop. */
  function SourceList(table: seq<Byte>, start: nat, fuel: nat): (r: Run)
    ensures r.Raised? ==> r.error == StructError
    ensures r.Finished? ==> 1 <= |r.clusters| <= fuel + 1 && r.clusters[0] == start
    ensures r.Finished? ==> Link(table, r.clusters[|r.clusters| - 1]) == Ok(EndOfChain)
  {
    ListFrom(table, start, [start], fuel)
  }

  /** Once a bounded run has an outcome, more steps do not change it. */
  lemma {:induction false} MoreFuelSameOutcome(table: seq<Byte>, current: nat, acc: seq<nat>, fuel: nat, more: nat)
    requires fuel <= more
    requires !ListFrom(table, current, acc, fuel).OutOfFuel?
    ensures ListFrom(table, current, acc, more) == ListFrom(table, current, acc, fuel)
    decreases fuel
  {
    match Link(table, current)
    case Err(_) =>
    case Ok(next) =>
      if next != EndOfChain {
        MoreFuelSameOutcome(table, next, acc + [next], fuel - 1, more - 1);
      }
  }

  // ---------------------------------------------------------------------
  // What a chain is
  // ---------------------------------------------------------------------

  predicate Distinct(s: seq<nat>) {
    forall i, j :: 0 <= i < j < |s| ==> s[i] != s[j]
  }

  /** Cluster `i` of `s` has an entry and its entry is cluster `i + 1`. */
  predicate LinksAt(table: seq<Byte>, s: seq<nat>, i: nat)
    requires i < |s| - 1
  {
    InTable(table, s[i]) && Next(table, s[i]) == s[i + 1]
  }

  /** Every cluster but the last has an entry and its entry is the next one. */
  predicate Linked(table: seq<Byte>, s: seq<nat>) {
    forall i: nat :: i < |s| - 1 ==> LinksAt(table, s, i)
  }

  /** No cluster after the first is the end-of-chain marker. */
  predicate NoMarkerAfterFirst(s: seq<nat>) {
    forall i :: 1 <= i < |s| ==> s[i] != EndOfChain
  }

  /** `chain` is the cluster chain of `start`: it begins at `start`, each
      cluster links to the next, no cluster after the first is 0xFFFF, and
      the entry of the last cluster is 0xFFFF. */
  predicate IsChain(table: seq<Byte>, start: nat, chain: seq<nat>) {
    && |chain| >= 1
    && chain[0] == start
    && Linked(table, chain)
    && NoMarkerAfterFirst(chain)
    && InTable(table, chain[|chain| - 1])
    && Next(table, chain[|chain| - 1]) == EndOfChain
  }

  // ---------------------------------------------------------------------
  // The total walker
  // ---------------------------------------------------------------------

  /** The clusters that have an entry. */
  function TableClusters(table: seq<Byte>): set<nat> {
    set c: nat | c < |table| / 2 && InTable(table, c)
  }

  function Visited(path: seq<nat>): set<nat> {
    set c | c in path
  }

  /** Clusters with an entry that the walk has not visited yet. */
  function Unvisited(table: seq<Byte>, path: seq<nat>): set<nat> {
    TableClusters(table) - Visited(path)
  }

  /** A walk in progress: `path` so far, all in the table, distinct, linked,
      and free of the marker after its first cluster. */
  predicate WalkInvariant(table: seq<Byte>, path: seq<nat>) {
    && |path| >= 1
    && (forall i :: 0 <= i < |path| ==> InTable(table, path[i]))
    && Linked(table, path)
    && Distinct(path)
    && NoMarkerAfterFirst(path)
  }

  /** Appending the entry of the last cluster keeps a list linked. */
  lemma LinkedAppend(table: seq<Byte>, path: seq<nat>, next: nat)
    requires |path| >= 1 && Linked(table, path)
    requires InTable(table, path[|path| - 1]) && Next(table, path[|path| - 1]) == next
    ensures Linked(table, path + [next])
  {
    var longer := path + [next];
    forall i: nat | i < |longer| - 1
      ensures LinksAt(table, longer, i)
    {
      if i < |path| - 1 {
        assert LinksAt(table, path, i);
      }
    }
  }

  /** A walk extended by a fresh cluster with an entry is still a walk, and
      has one unvisited cluster fewer. */
  lemma ExtendWalk(table: seq<Byte>, path: seq<nat>)
    requires WalkInvariant(table, path)
    requires var next := Next(table, path[|path| - 1]);
             next != EndOfChain && next !in path && InTable(table, next)
    ensures var next := Next(table, path[|path| - 1]);
            && WalkInvariant(table, path + [next])
            && Unvisited(table, path + [next]) < Unvisited(table, path)
  {
    var next := Next(table, path[|path| - 1]);
    LinkedAppend(table, path, next);
    assert next in Unvisited(table, path) && next !in Unvisited(table, path + [next]);
  }

  /** Continue a walk from `path`. Each step visits a cluster with an entry
      that was not visited before, so the unvisited set shrinks. The result,
      when there is one, extends `path` to a chain of its first cluster
      without repeating a cluster. */
  function Follow(table: seq<Byte>, path: seq<nat>): (r: Result<seq<nat>>)
    requires WalkInvariant(table, path)
    ensures r.Ok? ==> IsChain(table, path[0], r.value) && Distinct(r.value)
    ensures r.Ok? ==> path <= r.value
    ensures r.Err? ==> r.error != IndexError
    decreases Unvisited(table, path)
  {
    var last := path[|path| - 1];
    var next := Next(table, last);
    if next == EndOfChain then Ok(path)
    else if next in path then Err(CycleDetected)
    else if !InTable(table, next) then Err(StructError)
    else
      ExtendWalk(table, path);
      Follow(table, path + [next])
  }

  /** The cluster chain of `start`: `CycleDetected` where the original would
      loop forever, `StructError` where it raises. */
  function Walk(table: seq<Byte>, start: nat): (r: Result<seq<nat>>)
    ensures r.Ok? ==> IsChain(table, start, r.value) && Distinct(r.value)
    ensures !InTable(table, start) ==> r == Err(StructError)
    ensures r.Err? ==> r.error != IndexError
  {
    if !InTable(table, start) then Err(StructError) else Follow(table, [start])
  }

  // ---------------------------------------------------------------------
  // The walker agrees with the original loop
  // ---------------------------------------------------------------------

  /** A set of clusters the loop can never leave: each has an entry, that
      entry is again in the set, and it is never the marker. */
  predicate Closed(table: seq<Byte>, cycle: set<nat>) {
    forall c {:trigger StaysIn(table, cycle, c)} :: c in cycle ==> StaysIn(table, cycle, c)
  }

  /** Cluster `c` has an entry, in `cycle` and other than the marker. */
  predicate StaysIn(table: seq<Byte>, cycle: set<nat>, c: nat) {
    InTable(table, c) && Next(table, c) in cycle && Next(table, c) != EndOfChain
  }

  /** From inside a closed set the loop never stops. */
  lemma {:induction false} ClosedNeverEnds(table: seq<Byte>, cycle: set<nat>, current: nat, acc: seq<nat>, fuel: nat)
    requires Closed(table, cycle) && current in cycle
    ensures ListFrom(table, current, acc, fuel) == OutOfFuel
    decreases fuel
  {
    assert StaysIn(table, cycle, current);
    var next := Next(table, current);
    if fuel > 0 {
      ClosedNeverEnds(table, cycle, next, acc + [next], fuel - 1);
    }
  }

  /** The visited clusters of a walk that finds its next cluster among them
      form a closed set. */
  lemma RevisitIsClosed(table: seq<Byte>, path: seq<nat>)
    requires WalkInvariant(table, path)
    requires Next(table, path[|path| - 1]) in path
    requires Next(table, path[|path| - 1]) != EndOfChain
    ensures Closed(table, Visited(path))
  {
    forall c | c in Visited(path)
      ensures StaysIn(table, Visited(path), c)
    {
      var i :| 0 <= i < |path| && path[i] == c;
      if i < |path| - 1 {
        assert LinksAt(table, path, i);
      }
    }
  }

  /** One step of a walk that neither ends nor revisits nor leaves the table
      is one trip round the original loop. */
  lemma FollowStep(table: seq<Byte>, path: seq<nat>, fuel: nat)
    requires WalkInvariant(table, path)
    requires var next := Next(table, path[|path| - 1]);
             next != EndOfChain && next !in path && InTable(table, next)
    ensures var next := Next(table, path[|path| - 1]);
            && WalkInvariant(table, path + [next])
            && Unvisited(table, path + [next]) < Unvisited(table, path)
            && Follow(table, path) == Follow(table, path + [next])
            && ListFrom(table, path[|path| - 1], path, fuel + 1)
               == ListFrom(table, next, path + [next], fuel)
  {
    ExtendWalk(table, path);
  }

  /** A walk that finishes finishes the original loop with the same list, in
      as many trips as it appended clusters. */
  lemma {:induction false} FollowFinishes(table: seq<Byte>, path: seq<nat>)
    requires WalkInvariant(table, path)
    requires Follow(table, path).Ok?
    ensures ListFrom(table, path[|path| - 1], path, |Follow(table, path).value| - |path|)
            == Finished(Follow(table, path).value)
    decreases Unvisited(table, path)
  {
    var last := path[|path| - 1];
    var next := Next(table, last);
    if next != EndOfChain {
      var longer := path + [next];
      ExtendWalk(table, path);
      var l := Follow(table, longer).value;
      assert Follow(table, path).value == l;
      assert longer <= l;
      var trips := |l| - |longer|;
      FollowFinishes(table, longer);
      assert ListFrom(table, next, longer, trips) == Finished(l);
      LoopStep(table, last, path, trips);
    }
  }

  /** A walk that runs off the table makes the original loop raise, after
      the returned number of trips. */
  lemma {:induction false} FollowRaises(table: seq<Byte>, path: seq<nat>) returns (fuel: nat)
    requires WalkInvariant(table, path)
    requires Follow(table, path) == Err(StructError)
    ensures ListFrom(table, path[|path| - 1], path, fuel) == Raised(StructError)
    decreases Unvisited(table, path)
  {
    var next := Next(table, path[|path| - 1]);
    if !InTable(table, next) {
      fuel := 1;
    } else {
      FollowStep(table, path, 0);
      var rest := FollowRaises(table, path + [next]);
      FollowStep(table, path, rest);
      fuel := rest + 1;
    }
  }

  /** A loop whose next cluster was already visited never stops. */
  lemma RevisitNeverEnds(table: seq<Byte>, path: seq<nat>, fuel: nat)
    requires WalkInvariant(table, path)
    requires Next(table, path[|path| - 1]) in path
    requires Next(table, path[|path| - 1]) != EndOfChain
    ensures ListFrom(table, path[|path| - 1], path, fuel) == OutOfFuel
  {
    RevisitIsClosed(table, path);
    ClosedNeverEnds(table, Visited(path), path[|path| - 1], path, fuel);
  }

  /** A walk that detects a cycle is a loop that never stops. */
  lemma {:induction false} FollowCycles(table: seq<Byte>, path: seq<nat>, fuel: nat)
    requires WalkInvariant(table, path)
    requires Follow(table, path) == Err(CycleDetected)
    ensures ListFrom(table, path[|path| - 1], path, fuel) == OutOfFuel
    decreases Unvisited(table, path)
  {
    var last := path[|path| - 1];
    var next := Next(table, last);
    if next in path {
      assert next != EndOfChain;
      RevisitNeverEnds(table, path, fuel);
    } else if fuel > 0 {
      FollowStep(table, path, fuel - 1);
      FollowCycles(table, path + [next], fuel - 1);
    }
  }

  /** The three outcomes of the walk, each matched with the original loop
      started at `start`. */
  lemma WalkOutcomes(table: seq<Byte>, start: nat) returns (fuel: nat)
    ensures Walk(table, start).Ok? ==> SourceList(table, start, fuel) == Finished(Walk(table, start).value)
    ensures Walk(table, start) == Err(StructError) ==> SourceList(table, start, fuel) == Raised(StructError)
    ensures Walk(table, start) == Err(CycleDetected) ==>
              forall more: nat :: SourceList(table, start, more) == OutOfFuel
  {
    fuel := 0;
    if InTable(table, start) {
      var w := Follow(table, [start]);
      if w.Ok? {
        FollowFinishes(table, [start]);
        fuel := |w.value| - 1;
      } else if w.error == StructError {
        fuel := FollowRaises(table, [start]);
      } else {
        assert w.error == CycleDetected;
        forall more: nat ensures SourceList(table, start, more) == OutOfFuel {
          FollowCycles(table, [start], more);
        }
      }
    }
  }

  /** The walk returns a list exactly when the original loop, given enough
      trips, returns that list. */
  lemma WalkIsSourceLoop(table: seq<Byte>, start: nat, chain: seq<nat>)
    ensures Walk(table, start) == Ok(chain) <==> exists fuel: nat :: SourceList(table, start, fuel) == Finished(chain)
  {
    var bound := WalkOutcomes(table, start);
    var w := Walk(table, start);
    if w.Ok? {
      assert SourceList(table, start, bound) == Finished(w.value);
    }
    forall fuel: nat | SourceList(table, start, fuel) == Finished(chain)
      ensures w == Ok(chain)
    {
      // a cycle contradicts the hypothesis, as no trip count ends the loop
      if w != Err(CycleDetected) {
        if fuel <= bound {
          MoreFuelSameOutcome(table, start, [start], fuel, bound);
        } else {
          MoreFuelSameOutcome(table, start, [start], bound, fuel);
        }
      }
    }
  }

  /** The walk fails with `CycleDetected` exactly when the original loop
      never stops, and with `StructError` exactly when it raises. */
  lemma WalkFailsAsSourceLoop(table: seq<Byte>, start: nat)
    ensures Walk(table, start) == Err(CycleDetected) <==>
              forall fuel: nat :: SourceList(table, start, fuel) == OutOfFuel
    ensures Walk(table, start) == Err(StructError) <==>
              exists fuel: nat :: SourceList(table, start, fuel) == Raised(StructError)
  {
    var bound := WalkOutcomes(table, start);
    var w := Walk(table, start);
    if w == Err(StructError) {
      assert SourceList(table, start, bound) == Raised(StructError);
    }
    if !(w.Err? && w.error == CycleDetected) {
      assert SourceList(table, start, bound) != OutOfFuel;
    }
    forall fuel: nat | SourceList(table, start, fuel) == Raised(StructError)
      ensures w == Err(StructError)
    {
      // a cycle contradicts the hypothesis, as no trip count ends the loop
      if w != Err(CycleDetected) {
        if fuel <= bound {
          MoreFuelSameOutcome(table, start, [start], fuel, bound);
        } else {
          MoreFuelSameOutcome(table, start, [start], bound, fuel);
        }
      }
    }
  }

  /** One trip round the original loop. */
  lemma LoopStep(table: seq<Byte>, current: nat, acc: seq<nat>, fuel: nat)
    requires InTable(table, current) && Next(table, current) != EndOfChain
    ensures var next := Next(table, current);
            ListFrom(table, current, acc, fuel + 1) == ListFrom(table, next, acc + [next], fuel)
  {
  }

  /** A chain, read off the table, is what the original loop returns. */
  lemma {:induction false} ChainIsLoopResult(table: seq<Byte>, chain: seq<nat>, k: nat)
    requires |chain| >= 1 && Linked(table, chain) && NoMarkerAfterFirst(chain)
    requires InTable(table, chain[|chain| - 1]) && Next(table, chain[|chain| - 1]) == EndOfChain
    requires k < |chain|
    ensures ListFrom(table, chain[k], chain[..k + 1], |chain| - 1 - k) == Finished(chain)
    decreases |chain| - k
  {
    if k < |chain| - 1 {
      var current, next, fuel := chain[k], chain[k + 1], |chain| - 2 - k;
      assert LinksAt(table, chain, k);
      assert next != EndOfChain;
      assert chain[..k + 1] + [next] == chain[..k + 2];
      calc {
        ListFrom(table, current, chain[..k + 1], fuel + 1);
        { LoopStep(table, current, chain[..k + 1], fuel); }
        ListFrom(table, next, chain[..k + 2], fuel);
        { ChainIsLoopResult(table, chain, k + 1); }
        Finished(chain);
      }
    } else {
      assert chain[..k + 1] == chain;
    }
  }

  /** The walk returns exactly the chains: a list is the walk's result if and
      only if it is the cluster chain of `start`. */
  lemma WalkReturnsExactlyTheChain(table: seq<Byte>, start: nat, chain: seq<nat>)
    ensures Walk(table, start) == Ok(chain) <==> IsChain(table, start, chain)
  {
    if IsChain(table, start, chain) {
      ChainIsLoopResult(table, chain, 0);
      assert chain[..1] == [start];
      assert SourceList(table, start, |chain| - 1) == Finished(chain);
      WalkIsSourceLoop(table, start, chain);
    }
  }

  /** A table in which cluster 5 links to 6 and 6 ends the chain. */
  const TwoClusterTable: seq<Byte> :=
    [0, 0, 0, 0, 0, 0, 0, 0, 0, 0, 6, 0, 0xFF, 0xFF, 0, 0]

  /** A table in which cluster 5 links to itself. */
  const SelfLoopTable: seq<Byte> :=
    [0, 0, 0, 0, 0, 0, 0, 0, 0, 0, 5, 0, 0, 0, 0, 0]

  /** The walk from 5 yields [5, 6] on the first table; on the second it
      stops with `CycleDetected` where the original loops forever, and it
      reports `StructError` from a cluster with no entry. */
  lemma WalkExamples()
    ensures Walk(TwoClusterTable, 5) == Ok([5, 6])
    ensures Walk(SelfLoopTable, 5) == Err(CycleDetected)
    ensures Walk(TwoClusterTable, 8) == Err(StructError)
  {
    assert Next(TwoClusterTable, 5) == 6 && Next(TwoClusterTable, 6) == EndOfChain;
    assert Follow(TwoClusterTable, [5, 6]) == Ok([5, 6]);
    assert [5] + [6] == [5, 6];
    assert Next(SelfLoopTable, 5) == 5;
  }
}
