/** Worker tables, token groups, token slots and local prerequisites of the dense executor
    (src/cppEmitterDenseSchedule.cpp, mtBuildDenseOwnerReadyLayout;
    src/cppEmitterDenseExec.cpp, lookahead prologue of genDenseExecutor). */
module DenseLayout {
  import opened DenseDag

  /** All reduced edges from one producing worker into one task share one token, published
      by the last of the sources. */
  datatype Group = Group(dest: nat, producer: nat, sources: seq<nat>) {
    function Publisher(): nat
      requires |sources| > 0
    {
      sources[|sources| - 1]
    }
  }

  ghost predicate Ascending(s: seq<nat>) {
    forall i, j :: 0 <= i < j < |s| ==> s[i] < s[j]
  }

  // ----- worker tables

  /** Each worker's table lists its own tasks in id order; pos is the inverse. */
  ghost predicate TablesOk(owner: seq<nat>, threads: nat, tables: seq<seq<nat>>, pos: seq<nat>) {
    && |tables| == threads && |pos| == |owner|
    && (forall t :: 0 <= t < |owner| ==>
          owner[t] < threads && pos[t] < |tables[owner[t]]| && tables[owner[t]][pos[t]] == t)
    && (forall w, i :: 0 <= w < threads && 0 <= i < |tables[w]| ==>
          tables[w][i] < |owner| && owner[tables[w][i]] == w && pos[tables[w][i]] == i)
    && (forall w :: 0 <= w < threads ==> Ascending(tables[w]))
  }

  lemma TableOrder(owner: seq<nat>, threads: nat, tables: seq<seq<nat>>, pos: seq<nat>, s: nat, t: nat)
    requires TablesOk(owner, threads, tables, pos)
    requires s < |owner| && t < |owner| && owner[s] == owner[t]
    ensures s < t <==> pos[s] < pos[t]
  {
    var tb := tables[owner[s]];
    assert Ascending(tb) && tb[pos[s]] == s && tb[pos[t]] == t;
  }

  method BuildTables(owner: seq<nat>, threads: nat) returns (tables: seq<seq<nat>>, pos: seq<nat>)
    requires forall t :: 0 <= t < |owner| ==> owner[t] < threads
    ensures TablesOk(owner, threads, tables, pos)
  {
    tables := [];
    pos := seq(|owner|, _ => 0);
    for worker := 0 to threads
      invariant |tables| == worker && |pos| == |owner|
      invariant forall t :: 0 <= t < |owner| && owner[t] < worker ==>
                  pos[t] < |tables[owner[t]]| && tables[owner[t]][pos[t]] == t
      invariant forall w, i :: 0 <= w < worker && 0 <= i < |tables[w]| ==>
                  tables[w][i] < |owner| && owner[tables[w][i]] == w && pos[tables[w][i]] == i
      invariant forall w :: 0 <= w < worker ==> Ascending(tables[w])
    {
      var table: seq<nat> := [];
      for id := 0 to |owner|
        invariant |pos| == |owner|
        invariant forall t :: 0 <= t < |owner| && owner[t] < worker ==>
                    pos[t] < |tables[owner[t]]| && tables[owner[t]][pos[t]] == t
        invariant forall w, i :: 0 <= w < worker && 0 <= i < |tables[w]| ==>
                    tables[w][i] < |owner| && owner[tables[w][i]] == w && pos[tables[w][i]] == i
        invariant forall t :: 0 <= t < id && owner[t] == worker ==> pos[t] < |table| && table[pos[t]] == t
        invariant forall i :: 0 <= i < |table| ==> table[i] < id && owner[table[i]] == worker && pos[table[i]] == i
        invariant Ascending(table)
      {
        if owner[id] == worker {
          pos := pos[id := |table|];
          table := table + [id];
        }
      }
      tables := tables + [table];
    }
  }

  // ----- token groups

  ghost predicate CrossWorker(edges: Dag, owner: seq<nat>) {
    && Forward(edges) && |edges| == |owner|
    && forall s, t :: 0 <= s < |edges| && t in edges[s] ==> owner[s] != owner[t]
  }

  ghost predicate GroupOk(edges: Dag, owner: seq<nat>, g: Group)
    requires |edges| == |owner|
  {
    && |g.sources| > 0 && Ascending(g.sources) && g.dest < |owner|
    && (forall s: nat :: s in g.sources <==> s < |edges| && g.dest in edges[s] && owner[s] == g.producer)
  }

  ghost predicate KeyBefore(a: Group, b: Group) {
    a.dest < b.dest || (a.dest == b.dest && a.producer < b.producer)
  }

  /** Every edge is in exactly one group. */
  ghost predicate GroupsOk(edges: Dag, owner: seq<nat>, groups: seq<Group>)
    requires |edges| == |owner|
  {
    && (forall g :: 0 <= g < |groups| ==> GroupOk(edges, owner, groups[g]))
    && (forall g, h :: 0 <= g < h < |groups| ==> KeyBefore(groups[g], groups[h]))
    && (forall s, t :: 0 <= s < |edges| && t in edges[s] ==>
          exists g :: 0 <= g < |groups| && groups[g].dest == t && groups[g].producer == owner[s])
  }

  /** Sources of (dest, producer) among the tasks below `upTo`. */
  ghost function SourcesOf(edges: Dag, owner: seq<nat>, dest: nat, producer: nat, upTo: nat): (r: seq<nat>)
    requires |edges| == |owner| && upTo <= |edges|
    ensures Ascending(r)
    ensures forall s: nat :: s in r <==> s < upTo && dest in edges[s] && owner[s] == producer
  {
    if upTo == 0 then [] else
      var r := SourcesOf(edges, owner, dest, producer, upTo - 1);
      if dest in edges[upTo - 1] && owner[upTo - 1] == producer then
        assert forall i :: 0 <= i < |r| ==> r[i] in r;
        r + [upTo - 1]
      else r
  }

  type SourceMap = map<(nat, nat), seq<nat>>

  function Sources(grouped: SourceMap, d: nat, p: nat): seq<nat> {
    if (d, p) in grouped then grouped[(d, p)] else []
  }

  /** Appends `source` to the entry of each of its destinations. */
  method AddSource(grouped0: SourceMap, succs: set<nat>, p: nat, source: nat, n: nat) returns (grouped: SourceMap)
    requires forall d :: d in succs ==> d < n
    ensures forall d: nat, q: nat :: Sources(grouped, d, q) ==
              Sources(grouped0, d, q) + (if q == p && d in succs then [source] else [])
  {
    grouped := grouped0;
    for dest := 0 to n
      invariant forall d: nat, q: nat :: Sources(grouped, d, q) ==
                  Sources(grouped0, d, q) + (if q == p && d in succs && d < dest then [source] else [])
    {
      if dest in succs {
        grouped := grouped[(dest, p) := Sources(grouped, dest, p) + [source]];
      }
    }
  }

  /** The sources are appended in id order, one map entry per (destination, producer). */
  method CollectSources(edges: Dag, owner: seq<nat>) returns (grouped: SourceMap)
    requires |edges| == |owner| && Forward(edges)
    ensures Collected(edges, owner, grouped, |edges|)
  {
    grouped := map[];
    for source := 0 to |edges|
      invariant Collected(edges, owner, grouped, source)
    {
      ghost var was := grouped;
      grouped := AddSource(grouped, edges[source], owner[source], source, |edges|);
      CollectOne(edges, owner, was, grouped, source);
    }
  }

  ghost predicate Collected(edges: Dag, owner: seq<nat>, grouped: SourceMap, upTo: nat)
    requires |edges| == |owner| && upTo <= |edges|
  {
    forall d: nat, p: nat :: Sources(grouped, d, p) == SourcesOf(edges, owner, d, p, upTo)
  }

  lemma CollectOne(edges: Dag, owner: seq<nat>, was: SourceMap, grouped: SourceMap, source: nat)
    requires |edges| == |owner| && source < |edges| && Collected(edges, owner, was, source)
    requires forall d: nat, q: nat ::
               Sources(grouped, d, q)
               == Sources(was, d, q) + (if q == owner[source] && d in edges[source] then [source] else [])
    ensures Collected(edges, owner, grouped, source + 1)
  {
    forall d: nat, p: nat ensures Sources(grouped, d, p) == SourcesOf(edges, owner, d, p, source + 1) {
      OneMoreSource(edges, owner, d, p, source);
      assert Sources(was, d, p) == SourcesOf(edges, owner, d, p, source);
    }
  }

  lemma OneMoreSource(edges: Dag, owner: seq<nat>, d: nat, p: nat, source: nat)
    requires |edges| == |owner| && source < |edges|
    ensures SourcesOf(edges, owner, d, p, source + 1) ==
              SourcesOf(edges, owner, d, p, source) + (if p == owner[source] && d in edges[source] then [source]
                else [])
  {
  }

  ghost predicate GroupedUpTo(edges: Dag, owner: seq<nat>, groups: seq<Group>, dest: nat, producer: nat)
    requires |edges| == |owner|
  {
    && (forall g :: 0 <= g < |groups| ==> GroupOk(edges, owner, groups[g]) && KeyBelow(groups[g], dest, producer))
    && (forall g, h :: 0 <= g < h < |groups| ==> KeyBefore(groups[g], groups[h]))
    && (forall s, t :: 0 <= s < |edges| && t in edges[s] && (t < dest || (t == dest && owner[s] < producer)) ==>
          exists g :: 0 <= g < |groups| && groups[g].dest == t && groups[g].producer == owner[s])
  }

  ghost predicate KeyBelow(a: Group, dest: nat, producer: nat) {
    a.dest < dest || (a.dest == dest && a.producer < producer)
  }

  lemma GroupedStep(edges: Dag, owner: seq<nat>, groups: seq<Group>, dest: nat, producer: nat)
    requires |edges| == |owner| && dest < |owner| && GroupedUpTo(edges, owner, groups, dest, producer)
    ensures var sources := SourcesOf(edges, owner, dest, producer, |edges|);
            var next := if sources != [] then groups + [Group(dest, producer, sources)] else groups;
            GroupedUpTo(edges, owner, next, dest, producer + 1)
  {
    var sources := SourcesOf(edges, owner, dest, producer, |edges|);
    var next := if sources != [] then groups + [Group(dest, producer, sources)] else groups;
    assert sources != [] ==> next[|groups|] == Group(dest, producer, sources);
    forall s, t | 0 <= s < |edges| && t in edges[s] && (t < dest || (t == dest && owner[s] < producer + 1))
      ensures exists g :: 0 <= g < |next| && next[g].dest == t && next[g].producer == owner[s]
    {
      if t == dest && owner[s] == producer {
        assert s in sources;
      } else {
        var g :| 0 <= g < |groups| && groups[g].dest == t && groups[g].producer == owner[s];
        assert next[g] == groups[g];
      }
    }
  }

  /** The groups in (destination, producer) order. */
  method BuildGroups(edges: Dag, owner: seq<nat>, threads: nat) returns (groups: seq<Group>)
    requires CrossWorker(edges, owner) && forall t :: 0 <= t < |owner| ==> owner[t] < threads
    ensures GroupsOk(edges, owner, groups)
  {
    var grouped := CollectSources(edges, owner);
    groups := [];
    for d := 0 to |edges|
      invariant GroupedUpTo(edges, owner, groups, d, 0)
    {
      for p := 0 to threads
        invariant GroupedUpTo(edges, owner, groups, d, p)
      {
        GroupedStep(edges, owner, groups, d, p);
        if Sources(grouped, d, p) != [] {
          groups := groups + [Group(d, p, Sources(grouped, d, p))];
        }
      }
    }
  }

  // ----- token slots

  function Align(slot: nat): (r: nat)
    ensures r % 64 == 0 && slot <= r < slot + 64
  {
    (slot + 63) / 64 * 64
  }

  ghost predicate SamePair(owner: seq<nat>, a: Group, b: Group)
    requires a.dest < |owner| && b.dest < |owner|
  {
    a.producer == b.producer && owner[a.dest] == owner[b.dest]
  }

  ghost predicate DestsOk(groups: seq<Group>, owner: seq<nat>) {
    forall g :: 0 <= g < |groups| ==> groups[g].dest < |owner|
  }

  /** Slots are distinct, and a 64-slot line serves one (producer, consumer) worker pair.
      A slot of -1 has not been given yet. */
  ghost predicate SlotsApart(groups: seq<Group>, owner: seq<nat>, slots: seq<int>, next: nat)
    requires DestsOk(groups, owner)
  {
    && |slots| == |groups|
    && (forall g :: 0 <= g < |slots| ==> -1 <= slots[g] < next)
    && (forall g, h :: 0 <= g < h < |slots| && slots[g] >= 0 && slots[h] >= 0 ==>
          slots[g] != slots[h] && (slots[g] / 64 == slots[h] / 64 ==> SamePair(owner, groups[g], groups[h])))
  }

  lemma LineStart(start: nat, a: int, b: int)
    requires start % 64 == 0 && start <= b && a / 64 == b / 64
    ensures start <= a
  {
  }

  lemma GiveSlot(groups: seq<Group>, owner: seq<nat>, slots: seq<int>, start: nat, next: nat, gid: nat)
    requires DestsOk(groups, owner) && start % 64 == 0 && start <= next && SlotsApart(groups, owner, slots, next)
    requires gid < |groups| && forall g :: 0 <= g < |groups| && slots[g] >= start ==>
               SamePair(owner, groups[g], groups[gid])
    ensures SlotsApart(groups, owner, slots[gid := next], next + 1)
  {
    var s2 := slots[gid := next];
    forall g | 0 <= g < |s2| && g != gid && s2[g] >= 0
      ensures s2[g] != next && (s2[g] / 64 == next / 64 ==> SamePair(owner, groups[g], groups[gid]))
    {
      if s2[g] / 64 == next / 64 {
        LineStart(start, s2[g], next);
      }
    }
  }

  /** Groups get their slots in the order of (producer, consumer, group). */
  ghost predicate SlotBefore(groups: seq<Group>, owner: seq<nat>, g: nat, h: nat)
    requires DestsOk(groups, owner) && g < |groups| && h < |groups|
  {
    var a, b := groups[g], groups[h];
    a.producer < b.producer
      || (a.producer == b.producer && (owner[a.dest] < owner[b.dest] || (owner[a.dest] == owner[b.dest] && g < h)))
  }

  ghost predicate SlotsOrdered(groups: seq<Group>, owner: seq<nat>, slots: seq<int>)
    requires DestsOk(groups, owner) && |slots| == |groups|
  {
    forall g, h ::
      0 <= g < |slots| && 0 <= h < |slots| && slots[g] >= 0 && slots[h] >= 0 && SlotBefore(groups, owner, g, h) ==>
      slots[g] < slots[h]
  }

  lemma GiveInOrder(groups: seq<Group>, owner: seq<nat>, slots: seq<int>, next: nat, gid: nat)
    requires DestsOk(groups, owner) && |slots| == |groups| && SlotsOrdered(groups, owner, slots) && gid < |groups|
    requires forall g :: 0 <= g < |slots| && slots[g] >= 0 ==> slots[g] < next && SlotBefore(groups, owner, g, gid)
    ensures SlotsOrdered(groups, owner, slots[gid := next])
  {
    var s2 := slots[gid := next];
    assert forall h :: 0 <= h < |slots| && slots[h] >= 0 ==> !SlotBefore(groups, owner, gid, h);
    forall g, h | 0 <= g < |s2| && 0 <= h < |s2| && s2[g] >= 0 && s2[h] >= 0 && SlotBefore(groups, owner, g, h)
      ensures s2[g] < s2[h]
    {
    }
  }

  /** Group g belongs to the bank of the worker pair. */
  ghost predicate InBank(groups: seq<Group>, owner: seq<nat>, producer: nat, consumer: nat, g: nat)
    requires DestsOk(groups, owner) && g < |groups|
  {
    groups[g].producer == producer && owner[groups[g].dest] == consumer
  }

  ghost predicate BankBelow(groups: seq<Group>, owner: seq<nat>, producer: nat, consumer: nat, g: nat)
    requires DestsOk(groups, owner) && g < |groups|
  {
    groups[g].producer < producer || (groups[g].producer == producer && owner[groups[g].dest] < consumer)
  }

  /** Exactly the groups of earlier banks have a slot. */
  ghost predicate GivenTo(groups: seq<Group>, owner: seq<nat>, producer: nat, consumer: nat, slots: seq<int>)
    requires DestsOk(groups, owner) && |slots| == |groups|
  {
    forall g :: 0 <= g < |groups| ==> (slots[g] >= 0 <==> BankBelow(groups, owner, producer, consumer, g))
  }

  /** While a bank is being filled: its groups below gid have slots from start on. */
  ghost predicate FilledTo(groups: seq<Group>, owner: seq<nat>, producer: nat, consumer: nat, slots: seq<int>,
                           was: seq<int>, start: nat, gid: nat)
    requires DestsOk(groups, owner) && |slots| == |groups| == |was|
  {
    forall g :: 0 <= g < |groups| ==>
      if g < gid && InBank(groups, owner, producer, consumer, g) then start <= slots[g] else slots[g] == was[g]
  }

  lemma GiveNext(groups: seq<Group>, owner: seq<nat>, producer: nat, consumer: nat, slots: seq<int>, was: seq<int>,
                 start: nat, next: nat, gid: nat)
    requires DestsOk(groups, owner) && start % 64 == 0 && start <= next && gid < |groups| == |was|
    requires SlotsApart(groups, owner, slots, next) && SlotsOrdered(groups, owner, slots)
             && InBank(groups, owner, producer, consumer, gid)
    requires FilledTo(groups, owner, producer, consumer, slots, was, start, gid)
    requires GivenTo(groups, owner, producer, consumer, was) && forall g :: 0 <= g < |was| ==> was[g] < start
    ensures SlotsApart(groups, owner, slots[gid := next], next + 1) && SlotsOrdered(groups, owner, slots[gid := next])
    ensures FilledTo(groups, owner, producer, consumer, slots[gid := next], was, start, gid + 1)
  {
    GiveSlot(groups, owner, slots, start, next, gid);
    GiveInOrder(groups, owner, slots, next, gid);
  }

  /** How many groups below `upTo` the bank has. */
  ghost function BankSize(groups: seq<Group>, owner: seq<nat>, producer: nat, consumer: nat, upTo: nat): nat
    requires DestsOk(groups, owner) && upTo <= |groups|
  {
    if upTo == 0 then 0
    else BankSize(groups, owner, producer, consumer, upTo - 1)
         + if InBank(groups, owner, producer, consumer, upTo - 1) then 1 else 0
  }

  /** How many 64-slot lines the bank takes. */
  ghost function BankLines(groups: seq<Group>, owner: seq<nat>, producer: nat, consumer: nat): nat
    requires DestsOk(groups, owner)
  {
    (BankSize(groups, owner, producer, consumer, |groups|) + 63) / 64
  }

  /** How many lines the banks before it take. */
  ghost function LinesBefore(groups: seq<Group>, owner: seq<nat>, threads: nat, producer: nat, consumer: nat): nat
    requires DestsOk(groups, owner)
    decreases producer, consumer
  {
    if consumer > 0 then
      LinesBefore(groups, owner, threads, producer, consumer - 1) + BankLines(groups, owner, producer, consumer - 1)
    else if producer > 0 then LinesBefore(groups, owner, threads, producer - 1, threads)
    else 0
  }

  /** The groups of the bank below gid sit side by side from start on. */
  ghost predicate PackedTo(groups: seq<Group>, owner: seq<nat>, producer: nat, consumer: nat, slots: seq<int>,
                           start: nat, gid: nat)
    requires DestsOk(groups, owner) && |slots| == |groups|
  {
    forall g :: 0 <= g < gid <= |groups| && InBank(groups, owner, producer, consumer, g) ==>
      slots[g] == start + BankSize(groups, owner, producer, consumer, g)
  }

  /** Every group of the banks so far has its place: the lines of earlier banks, then the groups
      of its own bank. */
  ghost predicate Placed(groups: seq<Group>, owner: seq<nat>, threads: nat, producer: nat, consumer: nat,
                         slots: seq<int>)
    requires DestsOk(groups, owner) && |slots| == |groups|
  {
    forall g :: 0 <= g < |groups| && BankBelow(groups, owner, producer, consumer, g) ==>
      PlacedAt(groups, owner, threads, slots, g)
  }

  ghost predicate PlacedAt(groups: seq<Group>, owner: seq<nat>, threads: nat, slots: seq<int>, g: nat)
    requires DestsOk(groups, owner) && |slots| == |groups| && g < |groups|
  {
    var p, c := groups[g].producer, owner[groups[g].dest];
    slots[g] == 64 * LinesBefore(groups, owner, threads, p, c) + BankSize(groups, owner, p, c, g)
  }

  lemma PlacedMore(groups: seq<Group>, owner: seq<nat>, threads: nat, producer: nat, consumer: nat,
                   was: seq<int>, slots: seq<int>, start: nat)
    requires DestsOk(groups, owner) && |slots| == |groups| == |was|
    requires Placed(groups, owner, threads, producer, consumer, was)
    requires FilledTo(groups, owner, producer, consumer, slots, was, start, |groups|)
    requires PackedTo(groups, owner, producer, consumer, slots, start, |groups|)
    requires start == 64 * LinesBefore(groups, owner, threads, producer, consumer)
    ensures Placed(groups, owner, threads, producer, consumer + 1, slots)
  {
    forall g | 0 <= g < |groups| && BankBelow(groups, owner, producer, consumer + 1, g)
      ensures PlacedAt(groups, owner, threads, slots, g)
    {
      if BankBelow(groups, owner, producer, consumer, g) {
        assert PlacedAt(groups, owner, threads, was, g);
      }
    }
  }

  lemma PlacedRow(groups: seq<Group>, owner: seq<nat>, threads: nat, producer: nat, slots: seq<int>)
    requires DestsOk(groups, owner) && |slots| == |groups|
    requires forall g :: 0 <= g < |groups| ==> owner[groups[g].dest] < threads
    requires Placed(groups, owner, threads, producer, threads, slots)
    ensures Placed(groups, owner, threads, producer + 1, 0, slots)
  {
    forall g | 0 <= g < |groups| && BankBelow(groups, owner, producer + 1, 0, g)
      ensures PlacedAt(groups, owner, threads, slots, g)
    {
      assert BankBelow(groups, owner, producer, threads, g);
    }
  }

  /** A bank that is being filled, before group gid. */
  ghost predicate Filling(groups: seq<Group>, owner: seq<nat>, producer: nat, consumer: nat, slots: seq<int>,
                          was: seq<int>, start: nat, next: nat, gid: nat)
    requires DestsOk(groups, owner) && |slots| == |groups| == |was| && gid <= |groups|
  {
    && next == start + BankSize(groups, owner, producer, consumer, gid)
    && SlotsApart(groups, owner, slots, next) && SlotsOrdered(groups, owner, slots)
    && FilledTo(groups, owner, producer, consumer, slots, was, start, gid)
    && PackedTo(groups, owner, producer, consumer, slots, start, gid)
  }

  lemma FillOne(groups: seq<Group>, owner: seq<nat>, producer: nat, consumer: nat, slots: seq<int>, was: seq<int>,
                start: nat, next: nat, gid: nat)
    requires DestsOk(groups, owner) && |slots| == |groups| == |was| && gid < |groups| && start % 64 == 0
    requires Filling(groups, owner, producer, consumer, slots, was, start, next, gid)
    requires GivenTo(groups, owner, producer, consumer, was) && forall g :: 0 <= g < |was| ==> was[g] < start
    requires InBank(groups, owner, producer, consumer, gid)
    ensures Filling(groups, owner, producer, consumer, slots[gid := next], was, start, next + 1, gid + 1)
  {
    GiveNext(groups, owner, producer, consumer, slots, was, start, next, gid);
  }

  lemma FillNone(groups: seq<Group>, owner: seq<nat>, producer: nat, consumer: nat, slots: seq<int>, was: seq<int>,
                 start: nat, next: nat, gid: nat)
    requires DestsOk(groups, owner) && |slots| == |groups| == |was| && gid < |groups|
    requires Filling(groups, owner, producer, consumer, slots, was, start, next, gid)
    requires !InBank(groups, owner, producer, consumer, gid)
    ensures Filling(groups, owner, producer, consumer, slots, was, start, next, gid + 1)
  {
  }

  lemma AlignedEnd(start: nat, size: nat)
    requires start % 64 == 0
    ensures Align(start + size) == start + 64 * ((size + 63) / 64)
  {
  }

  /** Gives one bank of consecutive slots to the groups of one worker pair. */
  method FillBank(groups: seq<Group>, owner: seq<nat>, producer: nat, consumer: nat, slots: array<int>, start: nat)
    returns (next: nat)
    requires DestsOk(groups, owner) && start % 64 == 0 && SlotsApart(groups, owner, slots[..], start)
             && SlotsOrdered(groups, owner, slots[..])
    requires GivenTo(groups, owner, producer, consumer, slots[..])
    modifies slots
    ensures next % 64 == 0 && SlotsApart(groups, owner, slots[..], next) && SlotsOrdered(groups, owner, slots[..])
    ensures FilledTo(groups, owner, producer, consumer, slots[..], old(slots[..]), start, |groups|)
    ensures GivenTo(groups, owner, producer, consumer + 1, slots[..])
    ensures PackedTo(groups, owner, producer, consumer, slots[..], start, |groups|)
    ensures next == start + 64 * BankLines(groups, owner, producer, consumer)
  {
    ghost var was := slots[..];
    next := FillGroups(groups, owner, producer, consumer, slots, start);
    FillEnds(groups, owner, producer, consumer, slots[..], was, start, next);
    next := Align(next);
  }

  method FillGroups(groups: seq<Group>, owner: seq<nat>, producer: nat, consumer: nat, slots: array<int>, start: nat)
    returns (next: nat)
    requires DestsOk(groups, owner) && start % 64 == 0 && SlotsApart(groups, owner, slots[..], start)
             && SlotsOrdered(groups, owner, slots[..])
    requires GivenTo(groups, owner, producer, consumer, slots[..])
    modifies slots
    ensures Filling(groups, owner, producer, consumer, slots[..], old(slots[..]), start, next, |groups|)
  {
    next := start;
    ghost var was := slots[..];
    ghost var cur := was;
    FillStarts(groups, owner, producer, consumer, was, start);
    for gid := 0 to |groups|
      invariant slots.Length == |groups| && cur == slots[..]
      invariant Filling(groups, owner, producer, consumer, cur, was, start, next, gid)
    {
      if groups[gid].producer == producer && owner[groups[gid].dest] == consumer {
        FillOne(groups, owner, producer, consumer, cur, was, start, next, gid);
        slots[gid] := next;
        cur := cur[gid := next];
        next := next + 1;
      } else {
        FillNone(groups, owner, producer, consumer, cur, was, start, next, gid);
      }
    }
  }

  lemma FillStarts(groups: seq<Group>, owner: seq<nat>, producer: nat, consumer: nat, was: seq<int>, start: nat)
    requires DestsOk(groups, owner) && SlotsApart(groups, owner, was, start) && SlotsOrdered(groups, owner, was)
    ensures Filling(groups, owner, producer, consumer, was, was, start, start, 0)
    ensures forall g :: 0 <= g < |was| ==> was[g] < start
  {
  }

  lemma FillEnds(groups: seq<Group>, owner: seq<nat>, producer: nat, consumer: nat, slots: seq<int>, was: seq<int>,
                 start: nat, next: nat)
    requires DestsOk(groups, owner) && |slots| == |groups| == |was| && start % 64 == 0
    requires Filling(groups, owner, producer, consumer, slots, was, start, next, |groups|)
    requires GivenTo(groups, owner, producer, consumer, was)
    ensures SlotsApart(groups, owner, slots, Align(next)) && GivenTo(groups, owner, producer, consumer + 1, slots)
    ensures Align(next) == start + 64 * BankLines(groups, owner, producer, consumer)
  {
    AlignedEnd(start, BankSize(groups, owner, producer, consumer, |groups|));
    BankDone(groups, owner, producer, consumer, slots, was, start);
  }

  lemma BankDone(groups: seq<Group>, owner: seq<nat>, producer: nat, consumer: nat, slots: seq<int>, was: seq<int>,
                 start: nat)
    requires DestsOk(groups, owner) && |slots| == |groups| == |was|
    requires FilledTo(groups, owner, producer, consumer, slots, was, start, |groups|)
             && GivenTo(groups, owner, producer, consumer, was)
    ensures GivenTo(groups, owner, producer, consumer + 1, slots)
  {
    forall g | 0 <= g < |groups| ensures slots[g] >= 0 <==> BankBelow(groups, owner, producer, consumer + 1, g) {
      assert InBank(groups, owner, producer, consumer, g) || slots[g] == was[g];
    }
  }

  lemma NextRow(groups: seq<Group>, owner: seq<nat>, producer: nat, threads: nat, slots: seq<int>)
    requires DestsOk(groups, owner) && |slots| == |groups| && forall g :: 0 <= g < |groups| ==>
               owner[groups[g].dest] < threads
    ensures GivenTo(groups, owner, producer, threads, slots) <==> GivenTo(groups, owner, producer + 1, 0, slots)
  {
    assert forall g :: 0 <= g < |groups| ==>
             (BankBelow(groups, owner, producer, threads, g) <==> BankBelow(groups, owner, producer + 1, 0, g));
  }

  /** The banks follow each other in (producer, consumer) order. */
  method AssignSlots(groups: seq<Group>, owner: seq<nat>, threads: nat) returns (slots: seq<nat>, count: nat)
    requires DestsOk(groups, owner)
    requires forall g :: 0 <= g < |groups| ==> groups[g].producer < threads && owner[groups[g].dest] < threads
    ensures SlotsApart(groups, owner, slots, count) && SlotsOrdered(groups, owner, slots)
    ensures Placed(groups, owner, threads, threads, 0, slots)
    ensures var lines := LinesBefore(groups, owner, threads, threads, 0);
            count == if lines == 0 then 64 else 64 * lines
  {
    var given := new int[|groups|](_ => -1);
    count := 0;
    for producer := 0 to threads
      invariant count % 64 == 0 && SlotsApart(groups, owner, given[..], count) && SlotsOrdered(groups, owner, given[..])
      invariant GivenTo(groups, owner, producer, 0, given[..])
      invariant Placed(groups, owner, threads, producer, 0, given[..])
      invariant count == 64 * LinesBefore(groups, owner, threads, producer, 0)
    {
      for consumer := 0 to threads
        invariant count % 64 == 0 && SlotsApart(groups, owner, given[..], count)
                  && SlotsOrdered(groups, owner, given[..])
        invariant GivenTo(groups, owner, producer, consumer, given[..])
        invariant Placed(groups, owner, threads, producer, consumer, given[..])
        invariant count == 64 * LinesBefore(groups, owner, threads, producer, consumer)
      {
        ghost var was, start := given[..], count;
        count := FillBank(groups, owner, producer, consumer, given, count);
        PlacedMore(groups, owner, threads, producer, consumer, was, given[..], start);
      }
      NextRow(groups, owner, producer, threads, given[..]);
      PlacedRow(groups, owner, threads, producer, given[..]);
    }
    assert forall g :: 0 <= g < |groups| ==> BankBelow(groups, owner, threads, 0, g);
    slots := seq(|groups|, g requires 0 <= g < |groups| && given[g] >= 0 reads given => given[g]);
    assert slots == given[..];
    if count == 0 {
      count := 64;
    }
  }

  // ----- which tokens a task waits for and publishes

  function Insert(s: seq<nat>, x: nat): (r: seq<nat>)
    requires Ascending(s) && x !in s
    ensures Ascending(r) && |r| == |s| + 1
    ensures forall y :: y in r <==> y == x || y in s
  {
    if s == [] || x < s[0] then [x] + s
    else
      var r := Insert(s[1..], x);
      assert s == [s[0]] + s[1..];
      assert forall i :: 0 <= i < |r| ==> r[i] in r;
      [s[0]] + r
  }

  ghost predicate LinksOk(groups: seq<Group>, slots: seq<nat>, upTo: nat, n: nat, waits: seq<seq<nat>>,
                          stores: seq<seq<nat>>)
    requires |slots| == |groups| && upTo <= |groups|
    requires forall g :: 0 <= g < |groups| ==> |groups[g].sources| > 0
  {
    && |waits| == |stores| == n
    && (forall t :: 0 <= t < n ==> Ascending(waits[t]) && Ascending(stores[t]))
    && (forall t: nat, x :: t < n ==>
          (x in waits[t] <==> exists g :: 0 <= g < upTo && groups[g].dest == t && slots[g] == x))
    && (forall t: nat, x :: t < n ==>
          (x in stores[t] <==> exists g :: 0 <= g < upTo && groups[g].Publisher() == t && slots[g] == x))
  }

  method BuildLinks(groups: seq<Group>, slots: seq<nat>, n: nat) returns (waits: seq<seq<nat>>, stores: seq<seq<nat>>)
    requires |slots| == |groups|
    requires forall g :: 0 <= g < |groups| ==>
               |groups[g].sources| > 0 && groups[g].Publisher() < n && groups[g].dest < n
    requires forall g, h :: 0 <= g < h < |slots| ==> slots[g] != slots[h]
    ensures LinksOk(groups, slots, |groups|, n, waits, stores)
  {
    waits := seq(n, _ => []);
    stores := seq(n, _ => []);
    for gid := 0 to |groups|
      invariant LinksOk(groups, slots, gid, n, waits, stores)
    {
      var d, p, x := groups[gid].dest, groups[gid].Publisher(), slots[gid];
      waits := waits[d := Insert(waits[d], x)];
      stores := stores[p := Insert(stores[p], x)];
    }
  }

  // ----- local prerequisites

  ghost predicate DirectOk(kept: Dag, owner: seq<nat>, pos: seq<nat>, upTo: nat, local: seq<set<nat>>)
    requires |owner| == |pos| == |kept| && upTo <= |kept| && Forward(kept)
  {
    && |local| == |kept|
    && (forall t: nat, q :: t < |kept| ==> (q in local[t] <==>
          exists s :: 0 <= s < upTo && t in kept[s] && owner[s] == owner[t] && pos[s] == q))
  }

  /** Positions of the same-worker predecessors. */
  method BuildDirect(kept: Dag, owner: seq<nat>, pos: seq<nat>) returns (local: seq<set<nat>>)
    requires |owner| == |pos| == |kept| && Forward(kept)
    ensures DirectOk(kept, owner, pos, |kept|, local)
  {
    local := seq(|kept|, _ => {});
    for pred := 0 to |kept|
      invariant DirectOk(kept, owner, pos, pred, local)
    {
      local := seq(|kept|, t requires 0 <= t < |kept| && |local| == |kept| =>
        if t in kept[pred] && owner[pred] == owner[t] then local[t] + {pos[pred]} else local[t]);
    }
  }

  ghost predicate SiblingsOk(groups: seq<Group>, pos: seq<nat>, upTo: nat, direct: seq<set<nat>>, local: seq<set<nat>>)
    requires upTo <= |groups| && |direct| == |pos|
    requires forall g :: 0 <= g < |groups| ==> |groups[g].sources| > 0
    requires forall g, s :: 0 <= g < |groups| && s in groups[g].sources ==> s < |pos|
  {
    && |local| == |pos|
    && (forall t: nat, q :: t < |pos| ==> (q in local[t] <==>
          q in direct[t] || exists g, s ::
            0 <= g < upTo && groups[g].Publisher() == t && s in groups[g].sources && s != t && pos[s] == q))
  }

  /** Adds, to each publisher, the positions of the other sources of its groups. */
  method AddSiblings(groups: seq<Group>, pos: seq<nat>, direct: seq<set<nat>>) returns (local: seq<set<nat>>)
    requires |direct| == |pos|
    requires forall g :: 0 <= g < |groups| ==> |groups[g].sources| > 0
    requires forall g, s :: 0 <= g < |groups| && s in groups[g].sources ==> s < |pos|
    ensures SiblingsOk(groups, pos, |groups|, direct, local)
  {
    local := direct;
    for token := 0 to |groups|
      invariant SiblingsOk(groups, pos, token, direct, local)
    {
      var publisher, sources := groups[token].Publisher(), groups[token].sources;
      assert publisher in sources;
      var siblings := set s | s in sources && s != publisher :: pos[s];
      local := local[publisher := local[publisher] + siblings];
    }
  }
}
