/** The backward points-to graph (backgraph.c): for every object the objects that point to it, and how long a chain
 *  of objects leads to it.
 */
module BackGraph {
  import opened Common
  import opened BackWalks

  const MAX_IN: nat := 10
  const HEIGHT_UNKNOWN := -2
  const HEIGHT_IN_PROGRESS := -1

  // back_edges; cont is the index of the next structure, or -1
  datatype Struct = Struct(n: nat, retain: bool, gcNo: nat, height: int, edges: seq<Obj>, cont: int)

  // A structure that has not been used yet.
  function Zeroed(): Struct {
    Struct(0, false, 0, 0, seq(MAX_IN, i => 0), -1)
  }

  // The structures in use keep the heights they remember.
  ghost predicate SameHeights(structs0: seq<Struct>, owner0: seq<Owner>, structs: seq<Struct>) {
    forall t :: 0 <= t < |structs0| && t < |owner0| && owner0[t].Of? ==>
      && t < |structs| && structs[t].retain == structs0[t].retain && structs[t].gcNo == structs0[t].gcNo
      && structs[t].height == structs0[t].height
  }

  lemma HeightsPut(structs0: seq<Struct>, owner0: seq<Owner>, structs: seq<Struct>, s: nat, x: Struct)
    requires SameHeights(structs0, owner0, structs) && s < |structs|
    requires || (s < |structs0| && s < |owner0| ==> !owner0[s].Of?)
             || (x.retain == structs[s].retain && x.gcNo == structs[s].gcNo && x.height == structs[s].height)
    ensures SameHeights(structs0, owner0, structs[s := x])
  {
  }

  lemma HeightsMore(structs: seq<Struct>, owner: seq<Owner>, x: Struct)
    ensures SameHeights(structs, owner, structs + [x])
  {
  }

  lemma HeightsTrans(structs0: seq<Struct>, owner0: seq<Owner>, structs1: seq<Struct>, owner1: seq<Owner>,
                     structs: seq<Struct>)
    requires SameHeights(structs0, owner0, structs1) && SameHeights(structs1, owner1, structs)
    requires StillUsed(owner0, owner1)
    ensures SameHeights(structs0, owner0, structs)
  {
  }

  // The structures in use stay in use.
  ghost predicate StillUsed(owner0: seq<Owner>, owner: seq<Owner>) {
    forall t :: 0 <= t < |owner0| && owner0[t].Of? ==> t < |owner| && owner[t] == owner0[t]
  }

  lemma HeightsKept(structs: seq<Struct>, owner: seq<Owner>)
    ensures SameHeights(structs, owner, structs)
  {
  }

  // What the back pointer word of an object says: nothing, one predecessor, or a structure.
  datatype BackPtr = None | One(pred: Obj) | Many(at: nat)

  // Where a structure is.
  datatype Owner = Free | Loose | Of(o: Obj)

  function NextOf(list: seq<nat>, i: nat): int {
    if i + 1 < |list| then list[i + 1] else -1
  }

  // The structures at the places in the list, each linked to the next.
  ghost predicate Linked(structs: seq<Struct>, list: seq<nat>) {
    forall i :: 0 <= i < |list| ==> list[i] < |structs| && structs[list[i]].cont == NextOf(list, i)
  }

  lemma AtHead(structs: seq<Struct>, chain: seq<nat>, preds: seq<Obj>)
    requires Stands(structs, chain, preds)
    ensures chain != [] && chain[0] < |structs| && structs[chain[0]].n == |preds|
  {
  }

  // Where edge t is, and the structure before that one.
  lemma AtPlace(structs: seq<Struct>, chain: seq<nat>, preds: seq<Obj>, t: nat)
    requires Stands(structs, chain, preds) && t < |preds|
    ensures t / MAX_IN < |chain| && chain[t / MAX_IN] < |structs|
    ensures |structs[chain[t / MAX_IN]].edges| == MAX_IN && structs[chain[t / MAX_IN]].edges[t % MAX_IN] == preds[t]
    ensures t / MAX_IN > 0 ==>
              chain[t / MAX_IN - 1] < |structs| && structs[chain[t / MAX_IN - 1]].cont == chain[t / MAX_IN]
  {
    hide ChainLength;
    assert EdgeAt(structs, chain, t, preds[t]);
    if t / MAX_IN > 0 { assert structs[chain[t / MAX_IN - 1]].cont == NextOf(chain, t / MAX_IN - 1); }
  }

  // How many structures n edges take.
  function ChainLength(n: nat): (k: nat)
    ensures k > 0 && (n > 0 ==> MAX_IN * (k - 1) < n <= MAX_IN * k)
  {
    if n == 0 then 1 else (n + MAX_IN - 1) / MAX_IN
  }

  // Edge t is the one at its place in the chain.
  ghost predicate EdgeAt(structs: seq<Struct>, chain: seq<nat>, t: nat, q: Obj) {
    && t / MAX_IN < |chain| && chain[t / MAX_IN] < |structs|
    && |structs[chain[t / MAX_IN]].edges| == MAX_IN
    && structs[chain[t / MAX_IN]].edges[t % MAX_IN] == q
  }

  // The chain of structures stands for the predecessors.
  ghost predicate Stands(structs: seq<Struct>, chain: seq<nat>, preds: seq<Obj>) {
    && Linked(structs, chain) && |chain| == ChainLength(|preds|)
    && structs[chain[0]].n == |preds|
    && forall t: nat :: t < |preds| ==> EdgeAt(structs, chain, t, preds[t])
  }

  ghost predicate Shows(b: BackPtr, structs: seq<Struct>, chains: map<Obj, seq<nat>>, o: Obj, preds: seq<Obj>) {
    match b
    case None => preds == [] && o !in chains
    case One(q) => preds == [q] && o !in chains
    case Many(s) => o in chains && chains[o] != [] && chains[o][0] == s && Stands(structs, chains[o], preds)
  }

  // Every structure is in the place its owner says, and in no other.
  ghost predicate Parted(n: nat, chains: map<Obj, seq<nat>>, free: seq<nat>, owner: seq<Owner>) {
    && |owner| == n
    && Distinct(free) && (forall o <- chains :: Distinct(chains[o]))
    && (forall i :: 0 <= i < |free| ==> free[i] < n && owner[free[i]] == Free)
    && (forall o, i :: o in chains && 0 <= i < |chains[o]| ==> chains[o][i] < n && owner[chains[o][i]] == Of(o))
    && (forall s :: 0 <= s < n && owner[s] == Free ==> s in free)
    && (forall s :: 0 <= s < n && owner[s].Of? ==> owner[s].o in chains && s in chains[owner[s].o])
  }

  // The structures of objects other than o, and the free ones, are what they were.
  ghost predicate OthersSame(structs: seq<Struct>, structs2: seq<Struct>, owner: seq<Owner>, mine: set<nat>) {
    && |structs| <= |structs2| && |owner| == |structs|
    && forall s :: 0 <= s < |structs| && s !in mine ==> structs2[s] == structs[s]
  }

  // All structures have their place, those in loose aside.
  ghost predicate Stored(structs: seq<Struct>, chains: map<Obj, seq<nat>>, free: seq<nat>, owner: seq<Owner>,
                         avail: int,
                         loose: set<nat>)
  {
    && Parted(|structs|, chains, free, owner)
    && (forall s :: 0 <= s < |structs| ==> (owner[s] == Loose <==> s in loose))
    && (forall s :: 0 <= s < |structs| ==> |structs[s].edges| == MAX_IN)
    && Linked(structs, free) && avail == if free == [] then -1 else free[0]
  }

  ghost predicate ShowsAll(bg: map<Obj, BackPtr>, structs: seq<Struct>, chains: map<Obj, seq<nat>>, preds: Preds) {
    && preds.Keys == bg.Keys && chains.Keys <= bg.Keys
    && forall o <- bg :: Shows(bg[o], structs, chains, o, preds[o])
  }

  // The predecessors of an object are different objects of the graph.
  ghost predicate Closed(preds: Preds) {
    && (forall o <- preds :: Distinct(preds[o]))
    && (forall o, i :: o in preds && 0 <= i < |preds[o]| ==> preds[o][i] in preds)
  }

  lemma StandsFrame(structs: seq<Struct>, structs2: seq<Struct>, chain: seq<nat>, preds: seq<Obj>)
    requires Stands(structs, chain, preds) && |structs| <= |structs2|
    requires forall i :: 0 <= i < |chain| ==> structs2[chain[i]] == structs[chain[i]]
    ensures Stands(structs2, chain, preds)
  {
    forall t: nat | t < |preds| ensures EdgeAt(structs2, chain, t, preds[t]) {
      assert EdgeAt(structs, chain, t, preds[t]);
    }
  }

  class Graph {
    const max: nat                            // MAX_BACK_EDGE_STRUCTS
    var bg: map<Obj, BackPtr>
    var structs: seq<Struct>                  // back_edge_space, as far as it has been used
    var avail: int
    var random: nat
    var now: nat                              // the low order bits of GC_gc_no
    var inProgress: seq<Obj>                  // in_progress_space, as far as it is in use
    ghost var preds: Preds
    ghost var chains: map<Obj, seq<nat>>
    ghost var free: seq<nat>
    ghost var owner: seq<Owner>

    ghost predicate Space(loose: set<nat>)
      reads this
    {
      Stored(structs, chains, free, owner, avail, loose)
    }

    ghost predicate Valid()
      reads this
    {
      && Space({}) && ShowsAll(bg, structs, chains, preds) && Closed(preds) && now < 0x1_0000
    }

    // new_back_edges; it fails only if all structures are in use
    method NewStruct() returns (ok: bool, s: nat)
      requires Space({})
      modifies `structs, `avail, `free, `owner
      ensures !ok ==> free == [] && |structs| + 1 >= max
      ensures ok <==> old(free != [] || |structs| + 1 < max)
      ensures ok && old(free) == [] ==> structs == old(structs) + [Zeroed()]
      ensures ok && old(free) != [] ==>
                && s == old(free)[0] && s < |old(structs)| && structs == old(structs)[s := old(structs)[s].(cont := -1)]
      ensures ok ==> s < |structs| == |owner| && Space({s}) && structs[s].cont == -1
      ensures ok ==> SameHeights(old(structs), old(owner), structs) && (s < |old(owner)| ==> !old(owner)[s].Of?)
      ensures ok ==> SameBut(old(structs), structs, s) && |old(owner)| == |old(structs)|
      ensures ok ==> forall t :: 0 <= t < |old(structs)| && t != s ==> owner[t] == old(owner)[t]
    {
      hide SameHeights, Stored, Zeroed;
      IsStored(structs, chains, free, owner, avail, {});
      HeightsKept(structs, owner);
      if avail != -1 {
        s := avail;
        TakeStored(structs, chains, free, owner, avail);
        HeightsPut(structs, owner, structs, s, structs[s].(cont := -1));
        avail := structs[s].cont;
        structs := structs[s := structs[s].(cont := -1)];
        free, owner := free[1..], owner[s := Loose];
        return true, s;
      }
      if |structs| + 1 >= max {
        return false, 0;
      }
      ok, s := true, |structs|;
      HeightsMore(structs, owner, Zeroed());
      AddStored(structs, chains, free, owner, avail);
      structs := structs + [Zeroed()];
      owner := owner + [Loose];
    }

    // FOR_EACH_PRED: the predecessors that it goes through, in that order.
    method EachPred(o: Obj) returns (qs: seq<Obj>)
      requires o in bg && o in preds && Shows(bg[o], structs, chains, o, preds[o])
      ensures qs == preds[o]
    {
      match bg[o]
      case None => qs := [];
      case One(q) => qs := [q];
      case Many(s) => qs := StoredEdgesOf(s, chains[o], preds[o]);
    }

    method StoredEdgesOf(s: nat, ghost chain: seq<nat>, ghost qs0: seq<Obj>) returns (qs: seq<Obj>)
      requires Stands(structs, chain, qs0) && chain[0] == s
      ensures qs == qs0
    {
      hide Stands, EdgeAt, Linked;
      AtHead(structs, chain, qs0);
      qs := [];
      var be, local, total, n := s, 0, 0, structs[s].n;
      ghost var c := 0;
      while total < n
        invariant 0 <= local <= MAX_IN && total == MAX_IN * c + local && total <= n
        invariant 0 <= c < |chain| && chain[c] == be
        invariant qs == qs0[..total]
      {
        Place(if local == MAX_IN then c + 1 else c, if local == MAX_IN then 0 else local);
        AtPlace(structs, chain, qs0, total);
        if local == MAX_IN {
          be := structs[be].cont;
          local := 0;
          c := c + 1;
        }
        qs := qs + [structs[be].edges[local]];
        local, total := local + 1, total + 1;
      }
    }

    // ensure_struct; it fails only if there are no structures left
    method EnsureStruct(o: Obj) returns (ok: bool)
      requires Valid() && o in bg
      modifies this
      ensures !ok ==> free == [] && |structs| + 1 >= max
      ensures ok ==> Valid() && preds == old(preds) && o in bg && bg[o].Many?
      ensures ok ==> bg == old(bg)[o := bg[o]]
      ensures now == old(now) && random == old(random)
      ensures ok <==> old(bg[o].Many? || free != [] || |structs| + 1 < max)
      ensures ok ==> SameHeights(old(structs), old(owner), structs) && StillUsed(old(owner), owner)
      ensures ok && !old(bg[o].Many?) ==> bg[o].at < |structs| && HeightUnknown(structs[bg[o].at])
    {
      hide Stored, Closed, ShowsAll, Parted, SameHeights;
      HeightsKept(structs, owner);
      ok := true;
      if !bg[o].Many? {
        ghost var structs0, owner0 := structs, owner;
        var s;
        ok, s := NewStruct();
        if ok {
          LooseStruct(structs, chains, free, owner, avail, s);
          var n, edges := 0, structs[s].edges;
          if bg[o].One? { n, edges := 1, edges[0 := bg[o].pred]; }
          var gcNo := if now == 0 then 0xFFFF else now - 1;
          ghost var structs1 := structs;
          HeightsPut(structs0, owner0, structs, s, Struct(n, false, gcNo, HEIGHT_UNKNOWN, edges, -1));
          structs := structs[s := Struct(n, false, gcNo, HEIGHT_UNKNOWN, edges, -1)];
          NotYet(bg, structs0, chains, preds, o);
          Settle(structs1, chains, free, owner, avail, s, structs[s], o);
          ShowsStruct(bg, structs0, chains, preds, structs, free, owner, s, o);
          bg := bg[o := Many(s)];
          chains, owner := chains[o := [s]], owner[s := Of(o)];
        }
      }
    }

    // The structure says that the height was unknown at the last collection.
    predicate HeightUnknown(s: Struct)
      reads `now
    {
      !s.retain && s.height == HEIGHT_UNKNOWN && s.gcNo == if now == 0 then 0xFFFF else now - 1
    }

    // Link one more structure to the last one of q's chain.
    method Link(q: Obj, last: nat) returns (ok: bool, i: nat, s: nat)
      requires Space({}) && q in chains && chains[q] != [] && last == chains[q][|chains[q]| - 1]
      requires Linked(structs, chains[q])
      modifies `structs, `avail, `free, `owner, `chains
      ensures !ok ==> free == [] && |structs| + 1 >= max
      ensures ok ==> i == 0 && Space({}) && Longer(old(structs), old(chains), structs, chains, q, last, s)
      ensures ok ==> SameHeights(old(structs), old(owner), structs)
    {
      hide Stored, Parted, Linked, Longer, SameHeights, SameBut, Distinct, StillUsed, Zeroed;
      ghost var structs0, owner0 := structs, owner;
      InChain(structs, chains, free, owner, avail, q);
      ok, s := NewStruct();
      i := 0;
      if ok {
        LinkFacts(structs0, structs, chains, free, owner, avail, s, q);
        HeightsPut(structs0, owner0, structs, last, structs[last].(cont := s));
        structs := structs[last := structs[last].(cont := s)];
        chains, owner := chains[q := chains[q] + [s]], owner[s := Of(q)];
      }
    }

    // The last structure of q's chain, and how many edges are in it.
    method LastPlace(q: Obj) returns (i: nat, last: nat)
      requires q in bg && bg[q].Many? && q in preds && Shows(bg[q], structs, chains, q, preds[q])
      ensures last == chains[q][|chains[q]| - 1] && i <= MAX_IN
      ensures ChainLength(|preds[q]| + 1) == |chains[q]| + if i == MAX_IN then 1 else 0
      ensures |preds[q]| % MAX_IN == if i == MAX_IN then 0 else i
    {
      hide ChainLength;
      ghost var chain := chains[q];
      i, last := structs[bg[q].at].n, bg[q].at;
      ghost var c := 0;
      while i > MAX_IN
        invariant 0 <= c < |chain| && chain[c] == last && i + MAX_IN * c == |preds[q]|
        invariant i > 0 || c == 0
        decreases i
      {
        assert last < |structs| && structs[last].cont == NextOf(chain, c);
        last := structs[last].cont;
        i, c := i - MAX_IN, c + 1;
      }
      LastOfChain(|preds[q]|, c, i);
    }

    // The place for one more edge, with a new structure if the last one is full.
    method RoomFor(q: Obj) returns (ok: bool, i: nat, last: nat)
      requires Valid() && q in bg && bg[q].Many? && q in preds && q in chains
      modifies `structs, `avail, `free, `owner, `chains
      ensures !ok ==> free == [] && |structs| + 1 >= max
      ensures ok ==> Space({}) && q in chains && chains == old(chains)[q := chains[q]] && q in old(chains)
      ensures ok ==> Ready(old(structs), old(chains)[q], structs, chains[q], |preds[q]|)
      ensures ok ==> chains[q] != [] && last == chains[q][|chains[q]| - 1] && bg[q].at == chains[q][0]
      ensures ok ==> i == |preds[q]| % MAX_IN && bg[q].at < |structs| && structs[bg[q].at].n == |preds[q]|
      ensures ok ==> SameHeights(old(structs), old(owner), structs)
      ensures ok ==> forall t :: 0 <= t < |old(structs)| && t !in chains[q] ==> structs[t] == old(structs)[t]
    {
      hide Stored, Closed, ShowsAll, Parted, ChainLength, Shows, Linked, Stands, Ready, Distinct, SameHeights;
      HeightsKept(structs, owner);
      MyChain(bg, structs, chains, preds, q);
      ghost var structs0, chains0 := structs, chains;
      StandsLinked(structs, chains[q], preds[q]);
      AtHead(structs, chains[q], preds[q]);
      InChain(structs, chains, free, owner, avail, q);
      ok := true;
      i, last := LastPlace(q);
      if i == MAX_IN {
        ok, i, last := Link(q, last);
        if ok {
          InChain(structs, chains, free, owner, avail, q);
          LongerReady(structs0, chains0, structs, chains, q, chains0[q][|chains0[q]| - 1], last, |preds[q]|);
        }
      } else {
        ReadyNow(structs, chains[q], |preds[q]|);
      }
    }

    // The part of add_edge that stores the edge in the structures of q.
    method Append(p: Obj, q: Obj) returns (ok: bool)
      requires Valid() && p in bg && q in bg && bg[q].Many? && p !in preds[q]
      modifies `structs, `avail, `free, `owner, `chains, `preds
      ensures !ok ==> free == [] && |structs| + 1 >= max
      ensures ok ==> Valid() && preds == old(preds)[q := old(preds)[q] + [p]]
      ensures ok ==> SameHeights(old(structs), old(owner), structs)
    {
      hide Stored, Closed, ShowsAll, Parted, ChainLength, Shows, Linked, Stands, Ready, WithEdge, OneMore, SameHeights;
      ghost var structs0, chains0, owner0 := structs, chains, owner;
      MyChain(bg, structs, chains, preds, q);
      ShownKeys(bg, structs, chains, preds);
      var be, i, last := bg[q].at, 0, 0;
      ok, i, last := RoomFor(q);
      if ok {
        ghost var structs1 := structs;
        IsReady(structs0, chains0[q], structs, chains[q], |preds[q]|);
        WithEdgeKeeps(structs, chains[q], |preds[q]|, p);
        StoreEdge(structs0, chains0[q], structs, chains[q], preds[q], p);
        HeightsPut(structs0, owner0, structs, last, structs[last].(edges := structs[last].edges[i := p]));
        structs := structs[last := structs[last].(edges := structs[last].edges[i := p])];
        HeightsPut(structs0, owner0, structs, be, structs[be].(n := structs[be].n + 1));
        structs := structs[be := structs[be].(n := structs[be].n + 1)];
        IsWithEdge(structs1, chains[q], |preds[q]|, p, be, last, i);
        AppendedOk(bg, structs0, chains0, preds, structs1, structs, chains, free, owner, avail, q, p);
        preds := preds[q := preds[q] + [p]];
      }
    }

    // GOT_LUCKY_NUMBER: now and then an object gets a structure that it does not need.
    method Lucky() returns (b: bool)
      modifies `random
      ensures random == (old(random) + 1) % 0x1_0000_0000 && (b <==> random % 128 == 0)
    {
      random := (random + 1) % 0x1_0000_0000;
      b := random % 128 == 0;
    }

    // add_edge: p points to q.  Words in free list links, in objects without debug information, are not pointers.
    // It fails, and the program stops, only if there are no structures left.
    method AddEdge(p: Obj, q: Obj, debugInfo: bool) returns (ok: bool)
      requires Valid() && p in bg && q in bg
      modifies this
      ensures ok ==> Valid()
      ensures ok ==>
                preds == if debugInfo && p !in old(preds)[q] then old(preds)[q := old(preds)[q] + [p]] else old(preds)
      ensures !ok ==> free == [] && |structs| + 1 >= max
      ensures debugInfo && old(bg[q]) == None ==> random == (old(random) + 1) % 0x1_0000_0000
      ensures !debugInfo || old(bg[q]) != None ==> random == old(random)
      ensures ok && debugInfo && old(bg[q]) == None ==> (bg[q].Many? <==> random % 128 == 0)
      ensures ok ==> SameHeights(old(structs), old(owner), structs)
    {
      hide Stored, Closed, ShowsAll, Shows, SameHeights;
      HeightsKept(structs, owner);
      ok := true;
      if debugInfo {
        IsShown(bg, structs, chains, preds, q);
        if bg[q] == None {
          assert preds[q] + [p] == [p];
          ok := AddFirst(p, q);
        } else {
          var qs := EachPred(q);
          if p !in qs { ok := AddMore(p, q); }
        }
      }
    }

    method AddMore(p: Obj, q: Obj) returns (ok: bool)
      requires Valid() && p in bg && q in bg && q in preds && p !in preds[q]
      modifies this
      ensures ok ==> Valid() && q in old(preds) && preds == old(preds)[q := old(preds)[q] + [p]]
      ensures !ok ==> free == [] && |structs| + 1 >= max
      ensures random == old(random) && (ok ==> SameHeights(old(structs), old(owner), structs))
    {
      hide Stored, Closed, ShowsAll, Shows, SameHeights;
      ghost var structs0, owner0 := structs, owner;
      ok := EnsureStruct(q);
      if ok {
        ghost var structs1, owner1 := structs, owner;
        ok := Append(p, q);
        if ok { HeightsTrans(structs0, owner0, structs1, owner1, structs); }
      }
    }

    // The first edge to q.
    method AddFirst(p: Obj, q: Obj) returns (ok: bool)
      requires Valid() && p in bg && q in bg && bg[q] == None
      modifies this
      ensures ok ==> Valid() && preds == old(preds)[q := [p]]
      ensures !ok ==> free == [] && |structs| + 1 >= max
      ensures random == (old(random) + 1) % 0x1_0000_0000
      ensures ok ==> (bg[q].Many? <==> random % 128 == 0) && SameHeights(old(structs), old(owner), structs)
    {
      hide Stored, Closed, ShowsAll, Shows;
      NoneShown(bg, structs, chains, preds, p, q);
      bg := bg[q := One(p)];
      preds := preds[q := [p]];
      var lucky := Lucky();
      ok := true;
      HeightsKept(structs, owner);
      if lucky { ok := EnsureStruct(q); }
    }

    // deallocate_back_edges: structure k of the chain of o, and those after it, become free.
    method Deallocate(at: nat, ghost o: Obj, ghost k: nat)
      requires Space({}) && o in chains && Linked(structs, chains[o]) && k < |chains[o]| && chains[o][k] == at
      modifies `structs, `avail, `free, `owner, `chains
      ensures Space({}) && Released(old(structs), old(chains), structs, chains, o, k)
      ensures free == old(chains)[o][k..] + old(free)
    {
      hide Stored;
      ghost var chain := chains[o];
      var last := at;
      ghost var c := k;
      while structs[last].cont != -1
        invariant k <= c < |chain| && chain[c] == last
        decreases |chain| - c
      {
        assert structs[last].cont == NextOf(chain, c);
        last := structs[last].cont;
        c := c + 1;
      }
      assert structs[last].cont == NextOf(chain, c);
      FreeTail(structs, chains, free, owner, avail, o, k);
      structs := structs[last := structs[last].(cont := avail)];
      avail := at;
      free := chain[k..] + free;
      owner := Freed(owner, chain[k..]);
      chains := if k == 0 then chains - {o} else chains[o := chain[..k]];
    }

    // reset_back_edge: forget the predecessors of o, but keep its structure for one more collection if it is marked.
    method Reset(o: Obj, debugInfo: bool)
      requires Valid() && o in bg
      modifies this
      ensures Valid() && now == old(now)
      ensures preds == if debugInfo then old(preds)[o := []] else old(preds)
      ensures var b := old(bg)[o];
              debugInfo ==>
                (o in bg &&
                 if b.Many? && b.at < |old(structs)| && old(structs)[b.at].retain
                 then bg[o] == b && Remembers(old(structs), structs, b.at)
                 else bg[o] == None)
    {
      if debugInfo {
        IsShown(bg, structs, chains, preds, o);
        var b := bg[o];
        if b.Many? && structs[b.at].retain {
          Retain(o);
        } else {
          Forget(o);
        }
      }
    }

    method Forget(o: Obj)
      requires Valid() && o in bg
      modifies this
      ensures Valid() && now == old(now) && preds == old(preds)[o := []] && o in bg && bg[o] == None
    {
      hide Stored, Closed, ShowsAll, Parted, Shows, Linked, Stands;
      ghost var structs0, chains0 := structs, chains;
      IsShown(bg, structs, chains, preds, o);
      StoredParted(structs, chains, free, owner, avail);
      if bg[o].Many? {
        MyChain(bg, structs, chains, preds, o);
        StandsLinked(structs, chains[o], preds[o]);
        Deallocate(bg[o].at, o, 0);
      } else {
        NotYet(bg, structs, chains, preds, o);
      }
      ShowsNone(structs, chains, o);
      ShowsReset(bg, structs0, chains0, preds, None, structs, chains, old(free), old(owner), o);
      bg := bg[o := None];
      preds := preds[o := []];
    }

    method Retain(o: Obj)
      requires Valid() && o in bg && bg[o].Many?
      modifies this
      ensures Valid() && now == old(now) && preds == old(preds)[o := []] && o in bg && bg[o] == old(bg)[o]
      ensures Remembers(old(structs), structs, bg[o].at)
    {
      hide Stored, Closed, ShowsAll, Parted, Shows, Linked, Stands;
      ghost var structs0, chains0 := structs, chains;
      var be := bg[o].at;
      MyChain(bg, structs, chains, preds, o);
      StandsLinked(structs, chains[o], preds[o]);
      StoredParted(structs, chains, free, owner, avail);
      InChain(structs, chains, free, owner, avail, o);
      LinkedNext(structs, chains[o]);
      ghost var chain := chains[o];
      structs := structs[be := structs[be].(n := 0)];
      StoredOwned(structs0, structs, chains, free, owner, avail, o, be);
      if structs[be].cont != -1 {
        LinkedSame(structs0, structs, chain);
        Deallocate(structs[be].cont, o, 1);
        assert be !in chain[1..];
        InChain(structs, chains, free, owner, avail, o);
        ghost var structs1 := structs;
        structs := structs[be := structs[be].(cont := -1)];
        StoredOwned(structs1, structs, chains, free, owner, avail, o, be);
      }
      ghost var structs1 := structs;
      structs := structs[be := structs[be].(retain := false)];
      StoredOwned(structs1, structs, chains, free, owner, avail, o, be);
      ShowsEmpty(structs, chains, o, be);
      ShowsReset(bg, structs0, chains0, preds, bg[o], structs, chains, old(free), old(owner), o);
      assert bg[o := bg[o]] == bg;
      preds := preds[o := []];
    }

    /****** heights ******/

    // What is known of the height of every object.
    ghost function Phases(): (r: map<Obj, Phase>)
      reads this
      ensures r.Keys == bg.Keys
    {
      map o | o in bg :: PhaseOf(bg[o], structs, inProgress, now, o)
    }

    // Set the height of an object that has a structure.
    method SetHeight(p: Obj, height: int, gcNo: nat)
      requires Valid() && p in bg && bg[p].Many?
      modifies `structs
      ensures Valid() && Phases() == old(Phases())[p := HeightPhase(height, gcNo, now)]
    {
      hide Stored, Closed, ShowsAll, HeightPhase, PhaseOf;
      var s := bg[p].at;
      ghost var structs0 := structs;
      MyChain(bg, structs, chains, preds, p);
      structs := structs[s := structs[s].(height := height, gcNo := gcNo)];
      HeightStored(structs0, structs, chains, free, owner, avail, p);
      HeightShows(bg, structs0, structs, chains, preds);
      HeightPhases(bg, structs0, structs, chains, preds, free, owner, avail, inProgress, now, p);
      assert Phases() == old(Phases())[p := HeightPhase(height, gcNo, now)];
    }

    // push_in_progress, and what it means for an object with a single back pointer
    method PushInProgress(p: Obj)
      requires p in bg && bg[p].One?
      modifies `inProgress
      ensures inProgress == old(inProgress) + [p] && Phases() == old(Phases())[p := Going]
    {
      inProgress := inProgress + [p];
      forall o <- bg ensures Phases()[o] == if o == p then Going else old(Phases())[o] {
        assert o in inProgress <==> o in old(inProgress) || o == p;
      }
    }

    method PopInProgress(p: Obj)
      requires p in bg && bg[p].One? && inProgress != [] && inProgress[|inProgress| - 1] == p
      requires p !in inProgress[..|inProgress| - 1]
      modifies `inProgress
      ensures inProgress == old(inProgress[..|inProgress| - 1]) && Phases() == old(Phases())[p := Idle(1)]
    {
      var rest := inProgress[..|inProgress| - 1];
      assert inProgress == rest + [p];
      inProgress := rest;
      forall o <- bg ensures Phases()[o] == if o == p then Idle(1) else old(Phases())[o] {
        assert o in old(inProgress) <==> o in rest || o == p;
      }
    }

    // backwards_height
    method BackwardsHeight(p: Obj, marked: set<Obj>, ghost base: map<Obj, nat>) returns (r: nat)
      requires Valid() && p in bg && HeightsOk(preds, base, Phases()) && OnTop(preds, Phases(), p)
      modifies `structs, `inProgress
      ensures Valid() && HeightsOk(preds, base, Phases())
      ensures inProgress == old(inProgress) && SameGoing(old(Phases()), Phases())
      ensures IsHeight(preds, base, old(Phases()), p, r)
      decreases bg.Keys - GoingOf(Phases()), 1
    {
      hide Stored, Closed, ShowsAll, HeightsOk, SameGoing, GoingOf, OnTop, Reached, Bounded, Acyclic;
      IsShown(bg, structs, chains, preds, p);
      PhaseAnswers(preds, base, Phases(), p);
      match bg[p]
      case None =>
        r := 1;
      case One(q) =>
        if p in inProgress {
          r := 0;
        } else {
          r := HeightOfOne(p, q, marked, base);
        }
      case Many(s) =>
        if structs[s].height >= 0 && structs[s].gcNo == now {
          r := structs[s].height;
        } else if structs[s].height == HEIGHT_IN_PROGRESS {
          r := 0;
        } else {
          r := HeightOfMany(p, s, marked, base);
        }
    }

    // The part of it for an object with a single back pointer: that the height of p is being computed is kept in
    // the table.
    method HeightOfOne(p: Obj, q: Obj, marked: set<Obj>, ghost base: map<Obj, nat>) returns (r: nat)
      requires Valid() && p in bg && bg[p] == One(q) && p !in inProgress && HeightsOk(preds, base, Phases())
      requires OnTop(preds, Phases(), p)
      modifies `structs, `inProgress
      ensures Valid() && HeightsOk(preds, base, Phases())
      ensures inProgress == old(inProgress) && SameGoing(old(Phases()), Phases())
      ensures IsHeight(preds, base, old(Phases()), p, r)
      decreases bg.Keys - GoingOf(Phases()), 0
    {
      hide Stored, Closed, ShowsAll, HeightsOk, GoingOf, OnTop, Acyclic, SoFar, Edge, Shows, IsHeight;
      ghost var phases := Phases();
      IsShown(bg, structs, chains, preds, p);
      EdgesOf(preds, p);
      Start(preds, base, phases, p);
      PushInProgress(p);
      ghost var phases1 := Phases();
      assert preds[p][0] == q;
      UpOnTop(preds, phases, phases1, q, p);
      r := BackwardsHeight(q, marked, base);
      ghost var phases2 := Phases();
      SoFarNext(preds, base, phases1, p, 0, 1, r);
      r := r + 1;
      PopInProgress(p);
      End(preds, base, phases, phases2, Phases(), p, r);
    }

    // The part of it for an object with a structure, which holds the height.
    method HeightOfMany(p: Obj, s: nat, marked: set<Obj>, ghost base: map<Obj, nat>) returns (r: nat)
      requires Valid() && p in bg && bg[p] == Many(s) && HeightsOk(preds, base, Phases()) && Phases()[p].Idle?
      requires OnTop(preds, Phases(), p)
      modifies `structs, `inProgress
      ensures Valid() && HeightsOk(preds, base, Phases())
      ensures inProgress == old(inProgress) && SameGoing(old(Phases()), Phases())
      ensures IsHeight(preds, base, old(Phases()), p, r)
      decreases bg.Keys - GoingOf(Phases()), 0
    {
      hide *;
      ghost var phases := Phases();
      ManyIdle(p);
      Start(preds, base, phases, p);
      r := if structs[s].height > 0 then structs[s].height else 1;
      SetHeight(p, HEIGHT_IN_PROGRESS, structs[s].gcNo);
      Shown(p);
      var qs := EachPred(p);
      var i := 0;
      while i < |qs|
        invariant i <= |qs| && qs == preds[p]
        invariant Valid() && HeightsOk(preds, base, Phases()) && GoingOf(Phases()) == GoingOf(phases) + {p}
        invariant inProgress == old(inProgress)
        invariant SoFar(preds, base, p, i, r)
      {
        ghost var phases1 := Phases();
        UpOnTop(preds, phases, phases1, qs[i], p);
        var h := 1;
        // bg[p].Many? is what the source asks of p; the same of qs[i] seems meant
        if !(qs[i] in marked && !bg[p].Many?) {
          h := BackwardsHeight(qs[i], marked, base);
          SameKeys(phases1, Phases());
        }
        SoFarNext(preds, base, phases1, p, i, r, h);
        if h >= r { r := h + 1; }
        i := i + 1;
      }
      ghost var phases2 := Phases();
      HeightShown(preds, base, p, i, r, now);
      SetHeight(p, r, now);
      End(preds, base, phases, phases2, Phases(), p, r);
    }

    lemma Shown(p: Obj)
      requires Valid() && p in bg
      ensures p in preds && Shows(bg[p], structs, chains, p, preds[p])
    {
    }

    // What an object with a structure starts from.
    lemma ManyIdle(p: Obj)
      requires Valid() && p in bg && bg[p].Many? && Phases()[p].Idle?
      ensures preds.Keys == bg.Keys == Phases().Keys && bg[p].at < |structs|
      ensures var s := structs[bg[p].at];
              && Phases()[p].base == (if s.height > 0 then s.height else 1)
              && HeightPhase(HEIGHT_IN_PROGRESS, s.gcNo, now) == Going
      ensures forall i :: 0 <= i < |preds[p]| ==> Edge(preds, preds[p][i], p) && preds[p][i] in preds
    {
      MyChain(bg, structs, chains, preds, p);
      EdgesOf(preds, p);
    }

    // The height that p had in the last collection, if it was remembered.
    function Remembered(p: Obj): nat
      requires p in bg
      reads `bg, `structs
    {
      match bg[p]
      case Many(s) => if s < |structs| && structs[s].height > 0 then structs[s].height else 0
      case _ => 0
    }

    // The part of update_max_height that finds the height of a reachable object p: the greatest of the height it had
    // before and the heights of the unreachable objects that point to it; 0 is no object.
    method MaxHeight(p: Obj, marked: set<Obj>, ghost base: map<Obj, nat>) returns (max: nat, deepest: Obj)
      requires Valid() && p in bg && HeightsOk(preds, base, Phases()) && AtRest(Phases())
      modifies `structs, `inProgress
      ensures Valid() && HeightsOk(preds, base, Phases()) && AtRest(Phases()) && inProgress == old(inProgress)
      ensures p in preds && max >= old(Remembered(p))
      ensures max == 0 <==> old(Remembered(p)) == 0 && forall q <- preds[p] :: q in marked
      ensures if max > old(Remembered(p)) then deepest in preds[p] && deepest !in marked &&
                Reached(preds, base, deepest, max)
              else deepest == 0
      ensures Acyclic(preds) ==> forall q <- preds[p] :: q !in marked ==> Bounded(preds, base, q, max)
    {
      hide *;
      Shown(p);
      EdgesAt(p);
      max, deepest := Remembered(p), 0;
      ghost var start := max;
      var qs := EachPred(p);
      var i := 0;
      NoneGreatest(preds, base, qs, marked, start);
      while i < |qs|
        invariant i <= |qs| && qs == preds[p] && inProgress == old(inProgress)
        invariant Valid() && HeightsOk(preds, base, Phases()) && AtRest(Phases())
        invariant Greatest(preds, base, qs, marked, i, start, max, deepest)
      {
        if qs[i] !in marked {
          RestOnTop(preds, Phases(), qs[i]);
          ghost var phases := Phases();
          var h := BackwardsHeight(qs[i], marked, base);
          SameRest(phases, Phases());
          GreatestNext(preds, base, phases, qs, marked, i, start, max, deepest, h);
          if h > max { max, deepest := h, qs[i]; }
        } else {
          GreatestSkip(preds, base, qs, marked, i, start, max, deepest);
        }
        i := i + 1;
      }
      GreatestAll(preds, base, qs, marked, start, max, deepest);
    }

    lemma EdgesAt(p: Obj)
      requires Valid() && p in bg
      ensures preds.Keys == bg.Keys && forall i :: 0 <= i < |preds[p]| ==>
                Edge(preds, preds[p][i], p) && preds[p][i] in preds
    {
      EdgesOf(preds, p);
    }
  }

  // max is the greatest of start and the heights among the first i of qs that are not marked, and deepest is the one
  // that has it, or 0 if it is start.
  ghost predicate Greatest(preds: Preds, base: map<Obj, nat>, qs: seq<Obj>, marked: set<Obj>, i: nat, start: nat,
                           max: nat,
                           deepest: Obj) {
    && i <= |qs| && max >= start && (max == 0 <==> start == 0 && forall j :: 0 <= j < i ==> qs[j] in marked)
    && (if max > start then deepest in qs && deepest !in marked && Reached(preds, base, deepest, max) else deepest == 0)
    && (Acyclic(preds) ==> forall j :: 0 <= j < i && qs[j] !in marked ==> Bounded(preds, base, qs[j], max))
  }

  lemma NoneGreatest(preds: Preds, base: map<Obj, nat>, qs: seq<Obj>, marked: set<Obj>, start: nat)
    ensures Greatest(preds, base, qs, marked, 0, start, start, 0)
  {
  }

  lemma GreatestSkip(preds: Preds, base: map<Obj, nat>, qs: seq<Obj>, marked: set<Obj>, i: nat, start: nat, max: nat,
                     deepest: Obj)
    requires Greatest(preds, base, qs, marked, i, start, max, deepest) && i < |qs| && qs[i] in marked
    ensures Greatest(preds, base, qs, marked, i + 1, start, max, deepest)
  {
  }

  lemma GreatestNext(preds: Preds, base: map<Obj, nat>, phases: map<Obj, Phase>, qs: seq<Obj>, marked: set<Obj>,
                     i: nat, start: nat, max: nat, deepest: Obj, h: nat)
    requires Greatest(preds, base, qs, marked, i, start, max, deepest) && i < |qs| && qs[i] !in marked
    requires AtRest(phases) && IsHeight(preds, base, phases, qs[i], h)
    ensures Greatest(preds, base, qs, marked, i + 1, start, if h > max then h else max,
              if h > max then qs[i] else deepest)
  {
    hide Reached, Acyclic;
    assert h > 0;
  }

  lemma GreatestAll(preds: Preds, base: map<Obj, nat>, qs: seq<Obj>, marked: set<Obj>, start: nat, max: nat,
                    deepest: Obj)
    requires Greatest(preds, base, qs, marked, |qs|, start, max, deepest)
    ensures max >= start && (max == 0 <==> start == 0 && forall q <- qs :: q in marked)
    ensures if max > start then deepest in qs && deepest !in marked &&
              Reached(preds, base, deepest, max) else deepest == 0
    ensures Acyclic(preds) ==> forall q <- qs :: q !in marked ==> Bounded(preds, base, q, max)
  {
  }

  lemma SameRest(phases: map<Obj, Phase>, phases2: map<Obj, Phase>)
    requires AtRest(phases) && SameGoing(phases, phases2)
    ensures AtRest(phases2)
  {
    forall o <- phases2 ensures phases2[o] != Going {
      assert phases2[o] == Going <==> o in GoingOf(phases2);
    }
  }

  // No height is being computed.
  ghost predicate AtRest(phases: map<Obj, Phase>) {
    forall o <- phases :: phases[o] != Going
  }

  lemma RestOnTop(preds: Preds, phases: map<Obj, Phase>, p: Obj)
    requires AtRest(phases)
    ensures OnTop(preds, phases, p)
  {
  }

  // What is known of the height of p after i of its predecessors: r is the height of a chain, and if nothing leads
  // back to itself, these predecessors allow no higher one.
  ghost predicate SoFar(preds: Preds, base: map<Obj, nat>, p: Obj, i: nat, r: nat) {
    && p in base && p in preds && i <= |preds[p]| && r >= base[p] && r > 0 && Reached(preds, base, p, r)
    && (Acyclic(preds) ==> PredsBounded(preds, base, p, i, r))
  }

  // One more predecessor has a height.
  lemma SoFarNext(preds: Preds, base: map<Obj, nat>, phases: map<Obj, Phase>, p: Obj, i: nat, r: nat, h: nat)
    requires SoFar(preds, base, p, i, r) && i < |preds[p]|
    requires IsHeight(preds, base, phases, preds[p][i], h) && Edge(preds, preds[p][i], p)
    ensures SoFar(preds, base, p, i + 1, if h >= r then h + 1 else r)
  {
    if h > 0 { ReachedNext(preds, base, preds[p][i], p, h); }
    if Acyclic(preds) {
      var r2 := if h >= r then h + 1 else r;
      forall j | 0 <= j < i + 1 ensures Below(preds, base, preds[p][j], r2) {
        if j < i {
          assert Below(preds, base, preds[p][j], r);
          var l: nat :| l < r && Bounded(preds, base, preds[p][j], l);
          assert l < r2;
        } else {
          assert h < r2;
        }
      }
    }
  }

  // Another object does not have the structure of p.
  lemma OtherStruct(bg: map<Obj, BackPtr>, structs: seq<Struct>, chains: map<Obj, seq<nat>>, preds: Preds,
                    free: seq<nat>, owner: seq<Owner>, o: Obj, p: Obj)
    requires ShowsAll(bg, structs, chains, preds) && Parted(|structs|, chains, free, owner)
    requires o in bg && p in bg && o != p && bg[p].Many?
    ensures bg[o].Many? ==> bg[o].at != bg[p].at
  {
    MyChain(bg, structs, chains, preds, p);
    if bg[o].Many? {
      MyChain(bg, structs, chains, preds, o);
      assert owner[chains[o][0]] == Of(o) && owner[chains[p][0]] == Of(p);
    }
  }

  // Only p is in another phase if the first structure of p changes.
  lemma HeightPhases(bg: map<Obj, BackPtr>, structs: seq<Struct>, structs2: seq<Struct>, chains: map<Obj, seq<nat>>,
                     preds: Preds,
                     free: seq<nat>, owner: seq<Owner>, avail: int, inProgress: seq<Obj>, now: nat, p: Obj)
    requires ShowsAll(bg, structs, chains, preds) && Stored(structs, chains, free, owner, avail, {})
    requires p in bg && bg[p].Many? && |structs2| == |structs| && bg[p].at < |structs|
    requires forall t :: 0 <= t < |structs| && t != bg[p].at ==> structs2[t] == structs[t]
    ensures forall o <- bg :: o != p ==>
              PhaseOf(bg[o], structs2, inProgress, now, o) == PhaseOf(bg[o], structs, inProgress, now, o)
    ensures PhaseOf(bg[p], structs2, inProgress, now, p) == HeightPhase(structs2[bg[p].at].height,
              structs2[bg[p].at].gcNo, now)
  {
    forall o <- bg | o != p
      ensures PhaseOf(bg[o], structs2, inProgress, now, o) == PhaseOf(bg[o], structs, inProgress, now, o)
    {
      OtherStruct(bg, structs, chains, preds, free, owner, o, p);
    }
  }

  // Only the height of a structure of p changes.
  lemma HeightStored(structs: seq<Struct>, structs2: seq<Struct>, chains: map<Obj, seq<nat>>, free: seq<nat>,
                     owner: seq<Owner>, avail: int, p: Obj)
    requires Stored(structs, chains, free, owner, avail, {}) && SameShape(structs, structs2)
    ensures Stored(structs2, chains, free, owner, avail, {})
  {
    forall t | 0 <= t < |structs| ensures structs2[t].cont == structs[t].cont && structs2[t].edges == structs[t].edges {
      assert ShapeAt(structs, structs2, t);
    }
    LinkedSame(structs, structs2, free);
  }

  lemma HeightShows(bg: map<Obj, BackPtr>, structs: seq<Struct>, structs2: seq<Struct>, chains: map<Obj, seq<nat>>,
                    preds: Preds)
    requires ShowsAll(bg, structs, chains, preds) && SameShape(structs, structs2)
    ensures ShowsAll(bg, structs2, chains, preds)
  {
    forall x <- bg ensures Shows(bg[x], structs2, chains, x, preds[x]) {
      assert Shows(bg[x], structs, chains, x, preds[x]);
      if bg[x].Many? {
        forall i | 0 <= i < |chains[x]| ensures ShapeAt(structs, structs2, chains[x][i]) {
          assert chains[x][i] < |structs|;
        }
        forall t: nat | t < |preds[x]| ensures EdgeAt(structs2, chains[x], t, preds[x][t]) {
          assert EdgeAt(structs, chains[x], t, preds[x][t]);
        }
        forall i | 0 <= i < |chains[x]| ensures structs2[chains[x][i]].cont == NextOf(chains[x], i) {
          assert structs[chains[x][i]].cont == NextOf(chains[x], i);
        }
      }
    }
  }

  ghost predicate ShapeAt(structs: seq<Struct>, structs2: seq<Struct>, t: nat) {
    && t < |structs| && t < |structs2|
    && structs2[t].n == structs[t].n && structs2[t].edges == structs[t].edges && structs2[t].cont == structs[t].cont
  }

  // The structures differ in heights only.
  ghost predicate SameShape(structs: seq<Struct>, structs2: seq<Struct>) {
    |structs2| == |structs| && forall t: nat :: t < |structs| ==> ShapeAt(structs, structs2, t)
  }

  // The height of an object is not yet known, and it starts from a base; it is being computed; it is known.
  datatype Phase = Idle(base: nat) | Going | Known(height: nat)

  ghost function HeightPhase(height: int, gcNo: nat, now: nat): Phase {
    if height >= 0 && gcNo == now then Known(height)
    else if height == HEIGHT_IN_PROGRESS then Going
    else if height > 0 then Idle(height) else Idle(1)
  }

  ghost function PhaseOf(b: BackPtr, structs: seq<Struct>, inProgress: seq<Obj>, now: nat, o: Obj): Phase {
    match b
    case None => Idle(1)
    case One(q) => if o in inProgress then Going else Idle(1)
    case Many(s) => if s < |structs| then HeightPhase(structs[s].height, structs[s].gcNo, now) else Idle(1)
  }

  ghost function GoingOf(phases: map<Obj, Phase>): set<Obj> {
    set o | o in phases && phases[o] == Going
  }

  ghost predicate SameGoing(phases: map<Obj, Phase>, phases2: map<Obj, Phase>) {
    phases2.Keys == phases.Keys && GoingOf(phases2) == GoingOf(phases)
  }

  // The heights that are known are those of chains, and if nothing leads back to itself, of the highest ones.
  ghost predicate HeightsOk(preds: Preds, base: map<Obj, nat>, phases: map<Obj, Phase>) {
    && Based(preds, base) && phases.Keys == preds.Keys
    && (forall o <- phases :: phases[o].Idle? ==> phases[o].base == base[o])
    && (forall o <- phases :: phases[o].Known? ==> phases[o].height > 0 && Reached(preds, base, o, phases[o].height))
    && (forall o <- phases :: phases[o].Known? ==> Acyclic(preds) ==> Bounded(preds, base, o, phases[o].height))
  }

  // What backwards_height returns for p: nothing while p's height is being computed, otherwise the height of some
  // chain that ends at p, and that of the highest one if no object leads back to itself.
  ghost predicate IsHeight(preds: Preds, base: map<Obj, nat>, phases: map<Obj, Phase>, p: Obj, r: nat) {
    && p in phases && (r == 0 <==> phases[p] == Going)
    && (r > 0 ==> Reached(preds, base, p, r))
    && (Acyclic(preds) ==> r > 0 && Bounded(preds, base, p, r))
  }

  // The height of p is asked for on the way up from the objects whose heights are being computed: if nothing leads
  // back to itself, p leads to all of them and is not one of them.
  ghost predicate OnTop(preds: Preds, phases: map<Obj, Phase>, p: Obj) {
    Acyclic(preds) ==> forall x <- GoingOf(phases) :: x != p && Leads(preds, p, x)
  }

  lemma PhaseAnswers(preds: Preds, base: map<Obj, nat>, phases: map<Obj, Phase>, p: Obj)
    requires HeightsOk(preds, base, phases) && OnTop(preds, phases, p) && p in phases
    ensures phases[p].Known? ==> IsHeight(preds, base, phases, p, phases[p].height)
    ensures phases[p].Going? ==> IsHeight(preds, base, phases, p, 0)
    ensures phases[p].Idle? && preds[p] == [] ==> IsHeight(preds, base, phases, p, phases[p].base)
    ensures SameGoing(phases, phases)
  {
    assert phases[p].Going? ==> p in GoingOf(phases);
    if phases[p].Idle? && preds[p] == [] {
      Single(preds, base, p);
      BoundedNext(preds, base, p, phases[p].base);
    }
  }

  // The computation of p's height starts.
  lemma Start(preds: Preds, base: map<Obj, nat>, phases: map<Obj, Phase>, p: Obj)
    requires HeightsOk(preds, base, phases) && OnTop(preds, phases, p) && p in phases && phases[p].Idle?
    ensures HeightsOk(preds, base, phases[p := Going])
    ensures GoingOf(phases[p := Going]) == GoingOf(phases) + {p} && p !in GoingOf(phases)
    ensures p in base && phases[p].base == base[p] && SoFar(preds, base, p, 0, base[p])
  {
    Single(preds, base, p);
  }

  // It goes on to a predecessor.
  lemma UpOnTop(preds: Preds, phases: map<Obj, Phase>, phases1: map<Obj, Phase>, q: Obj, p: Obj)
    requires OnTop(preds, phases, p) && Edge(preds, q, p) && GoingOf(phases1) == GoingOf(phases) + {p}
    ensures OnTop(preds, phases1, q)
  {
    if Acyclic(preds) {
      forall x <- GoingOf(phases1) ensures x != q && Leads(preds, q, x) {
        LeadsNext(preds, q, p, x);
        if x == p { assert Walk(preds, [p]); assert WalkFromTo(preds, [p], p, p); }
        assert Leads(preds, p, x);
      }
    }
  }

  // The computation ends, with p as before or with its height known.
  lemma End(preds: Preds, base: map<Obj, nat>, phases: map<Obj, Phase>, phases1: map<Obj, Phase>,
            phases2: map<Obj, Phase>,
            p: Obj, r: nat)
    requires HeightsOk(preds, base, phases1) && phases2.Keys == phases1.Keys == phases.Keys && p in phases
    requires GoingOf(phases1) == GoingOf(phases) + {p} && p !in GoingOf(phases)
    requires phases2 == phases1[p := phases2[p]] && (phases2[p] == Idle(base[p]) || phases2[p] == Known(r))
    requires SoFar(preds, base, p, |preds[p]|, r)
    ensures HeightsOk(preds, base, phases2) && SameGoing(phases, phases2) && IsHeight(preds, base, phases, p, r)
  {
    if Acyclic(preds) { BoundedNext(preds, base, p, r); }
    assert GoingOf(phases2) == GoingOf(phases1) - {p};
    assert phases[p] == Going ==> p in GoingOf(phases);
  }

  lemma HeightShown(preds: Preds, base: map<Obj, nat>, p: Obj, i: nat, r: nat, now: nat)
    requires SoFar(preds, base, p, i, r)
    ensures HeightPhase(r, now, now) == Known(r)
  {
  }

  lemma SameKeys(phases: map<Obj, Phase>, phases2: map<Obj, Phase>)
    requires SameGoing(phases, phases2)
    ensures phases2.Keys == phases.Keys && GoingOf(phases2) == GoingOf(phases)
  {
  }

  lemma EdgesOf(preds: Preds, p: Obj)
    requires Closed(preds) && p in preds
    ensures forall i :: 0 <= i < |preds[p]| ==> Edge(preds, preds[p][i], p) && preds[p][i] in preds
  {
  }

  // The structure at s is to be forgotten at the next reset, and remembers the height it had.
  predicate Remembers(structs: seq<Struct>, structs2: seq<Struct>, s: nat) {
    && s < |structs| && s < |structs2| && !structs2[s].retain
    && structs2[s].height == structs[s].height && structs2[s].gcNo == structs[s].gcNo
  }

  lemma LinkedNext(structs: seq<Struct>, chain: seq<nat>)
    requires Linked(structs, chain) && chain != []
    ensures chain[0] < |structs| && structs[chain[0]].cont == if |chain| > 1 then chain[1] else -1
  {
  }

  lemma LinkedSame(structs: seq<Struct>, structs2: seq<Struct>, chain: seq<nat>)
    requires Linked(structs, chain) && |structs2| == |structs|
    requires forall t :: 0 <= t < |structs| ==> structs2[t].cont == structs[t].cont
    ensures Linked(structs2, chain)
  {
  }

  // A change of a structure of an object.
  lemma StoredOwned(structs: seq<Struct>, structs2: seq<Struct>, chains: map<Obj, seq<nat>>, free: seq<nat>,
                    owner: seq<Owner>, avail: int, o: Obj, s: nat)
    requires Stored(structs, chains, free, owner, avail, {}) && o in chains && s in chains[o] && |structs2| == |structs|
    requires s < |structs| && |structs2[s].edges| == MAX_IN
    requires forall t :: 0 <= t < |structs| && t != s ==> structs2[t] == structs[t]
    ensures Stored(structs2, chains, free, owner, avail, {})
  {
    InChain(structs, chains, free, owner, avail, o);
    FreeLinked(structs, structs2, chains, free, owner);
  }

  lemma ShowsEmpty(structs: seq<Struct>, chains: map<Obj, seq<nat>>, o: Obj, s: nat)
    requires o in chains && chains[o] == [s] && s < |structs| && structs[s].cont == -1 && structs[s].n == 0
    ensures Shows(Many(s), structs, chains, o, [])
  {
  }

  lemma StoredParted(structs: seq<Struct>, chains: map<Obj, seq<nat>>, free: seq<nat>, owner: seq<Owner>, avail: int)
    requires Stored(structs, chains, free, owner, avail, {})
    ensures Parted(|structs|, chains, free, owner)
  {
  }

  lemma StandsLinked(structs: seq<Struct>, chain: seq<nat>, preds: seq<Obj>)
    requires Stands(structs, chain, preds)
    ensures Linked(structs, chain)
  {
  }

  lemma ShowsNone(structs: seq<Struct>, chains: map<Obj, seq<nat>>, o: Obj)
    requires o !in chains
    ensures Shows(None, structs, chains, o, [])
  {
  }

  // The predecessors of one object are forgotten.
  lemma ShowsReset(bg: map<Obj, BackPtr>, structs: seq<Struct>, chains: map<Obj, seq<nat>>, preds: Preds,
                   b: BackPtr, structs2: seq<Struct>, chains2: map<Obj, seq<nat>>, free: seq<nat>, owner: seq<Owner>,
                       o: Obj)
    requires ShowsAll(bg, structs, chains, preds) && Closed(preds) && Parted(|structs|, chains, free, owner) && o in bg
    requires Shows(b, structs2, chains2, o, []) && chains2.Keys <= chains.Keys && chains - {o} == chains2 - {o}
    requires |structs2| == |structs|
    requires forall t :: 0 <= t < |structs| && (o in chains ==> t !in chains[o]) ==> structs2[t] == structs[t]
    ensures ShowsAll(bg[o := b], structs2, chains2, preds[o := []]) && Closed(preds[o := []])
  {
    var bg2, preds2 := bg[o := b], preds[o := []];
    hide Shows;
    forall x <- bg2 ensures Shows(bg2[x], structs2, chains2, x, preds2[x]) {
      if x != o {
        assert x in chains <==> x in chains - {o};
        assert x in chains2 <==> x in chains2 - {o};
        if x in chains {
          assert chains2[x] == (chains2 - {o})[x] == (chains - {o})[x] == chains[x];
          forall i | 0 <= i < |chains[x]| ensures o in chains ==> chains[x][i] !in chains[o] {
            assert owner[chains[x][i]] == Of(x);
          }
        }
        ShowsFrame(bg, structs, chains, preds, structs2, x);
        ShowsSame(bg[x], structs2, chains, chains2, x, preds[x]);
      } else {
        assert preds2[x] == [];
      }
    }
    assert Closed(preds2) by {
      assert forall x :: x in preds2 && x != o ==> preds2[x] == preds[x];
    }
  }

  lemma ShowsSame(b: BackPtr, structs: seq<Struct>, chains: map<Obj, seq<nat>>, chains2: map<Obj, seq<nat>>, x: Obj,
                  preds: seq<Obj>)
    requires Shows(b, structs, chains, x, preds)
    requires (x in chains <==> x in chains2) && (x in chains ==> chains2[x] == chains[x])
    ensures Shows(b, structs, chains2, x, preds)
  {
  }

  function Freed(owner: seq<Owner>, list: seq<nat>): (r: seq<Owner>)
    ensures |r| == |owner|
  {
    seq(|owner|, s requires 0 <= s < |owner| => if s in list then Free else owner[s])
  }

  // The chain of o has been cut off before place k; all other structures are what they were.
  ghost predicate Released(structs: seq<Struct>, chains: map<Obj, seq<nat>>, structs2: seq<Struct>,
                           chains2: map<Obj, seq<nat>>,
                           o: Obj, k: nat)
  {
    && o in chains && k < |chains[o]|
    && chains2 == (if k == 0 then chains - {o} else chains[o := chains[o][..k]])
    && |structs2| == |structs|
    && forall t :: 0 <= t < |structs| && t !in chains[o][k..] ==> structs2[t] == structs[t]
  }

  lemma FreeTail(structs: seq<Struct>, chains: map<Obj, seq<nat>>, free: seq<nat>, owner: seq<Owner>, avail: int,
                 o: Obj, k: nat)
    requires Stored(structs, chains, free, owner, avail, {}) && o in chains && Linked(structs, chains[o])
    requires k < |chains[o]|
    ensures var chain := chains[o];
            var last := chain[|chain| - 1];
            Stored(structs[last := structs[last].(cont := avail)],
                   if k == 0 then chains - {o} else chains[o := chain[..k]],
                   chain[k..] + free, Freed(owner, chain[k..]), chain[k], {})
  {
    hide Parted, Linked;
    var chain := chains[o];
    InChain(structs, chains, free, owner, avail, o);
    var last := chain[|chain| - 1];
    var structs2 := structs[last := structs[last].(cont := avail)];
    FreeParted(|structs|, chains, free, owner, o, k);
    FreeElements(|structs|, chains, free, owner, o);
    TailLinked(structs, structs2, chain, free, k, avail);
  }

  lemma FreeElements(n: nat, chains: map<Obj, seq<nat>>, free: seq<nat>, owner: seq<Owner>, o: Obj)
    requires Parted(n, chains, free, owner) && o in chains
    ensures forall i :: 0 <= i < |free| ==> free[i] < n && free[i] !in chains[o]
  {
    forall i | 0 <= i < |free| ensures free[i] !in chains[o] {
      assert owner[free[i]] == Free;
    }
  }

  // The end of a chain goes in front of another list.
  lemma TailLinked(structs: seq<Struct>, structs2: seq<Struct>, chain: seq<nat>, free: seq<nat>, k: nat, avail: int)
    requires Linked(structs, chain) && Linked(structs, free) && k < |chain| && |structs2| == |structs|
    requires Distinct(chain) && (forall i :: 0 <= i < |free| ==> free[i] !in chain)
    requires avail == if free == [] then -1 else free[0]
    requires var last := chain[|chain| - 1];
             last < |structs| && structs2 == structs[last := structs[last].(cont := avail)]
    ensures Linked(structs2, chain[k..] + free)
  {
    var free2 := chain[k..] + free;
    forall i | 0 <= i < |free2| ensures free2[i] < |structs2| && structs2[free2[i]].cont == NextOf(free2, i) {
      if i < |chain| - k {
        assert free2[i] == chain[k + i] && structs[chain[k + i]].cont == NextOf(chain, k + i);
      } else {
        var j := i - (|chain| - k);
        assert free2[i] == free[j] && structs[free[j]].cont == NextOf(free, j);
      }
    }
  }

  // The tail of a chain is apart from its front and from the free structures.
  lemma TailApart(n: nat, chains: map<Obj, seq<nat>>, free: seq<nat>, owner: seq<Owner>, o: Obj, k: nat)
    requires Parted(n, chains, free, owner) && o in chains && k < |chains[o]|
    ensures var tail := chains[o][k..];
            && Distinct(tail + free) && Distinct(chains[o][..k]) && (forall i :: 0 <= i < k ==> chains[o][i] !in tail)
            && (forall t <- tail :: t < n && owner[t] == Of(o)) && (forall t <- free :: t < n && owner[t] == Free)
            && (forall j :: k <= j < |chains[o]| ==> chains[o][j] in tail)
  {
    var tail := chains[o][k..];
    forall j | k <= j < |chains[o]| ensures chains[o][j] in tail { assert tail[j - k] == chains[o][j]; }
    forall i | 0 <= i < |tail| ensures owner[tail[i]] == Of(o) && tail[i] == chains[o][k + i] {}
  }

  lemma FreeParted(n: nat, chains: map<Obj, seq<nat>>, free: seq<nat>, owner: seq<Owner>, o: Obj, k: nat)
    requires Parted(n, chains, free, owner) && o in chains && k < |chains[o]|
    ensures Parted(n, if k == 0 then chains - {o} else chains[o := chains[o][..k]], chains[o][k..] + free,
                   Freed(owner, chains[o][k..]))
  {
    var chain := chains[o];
    var tail := chain[k..];
    var free2, owner2 := tail + free, Freed(owner, tail);
    var chains2 := if k == 0 then chains - {o} else chains[o := chain[..k]];
    TailApart(n, chains, free, owner, o, k);
    hide Distinct;
    forall p, i | p in chains2 && 0 <= i < |chains2[p]| ensures chains2[p][i] < n && owner2[chains2[p][i]] == Of(p) {
      assert owner[chains[p][i]] == Of(p);
    }
    forall t | 0 <= t < n && owner2[t] == Free ensures t in free2 {
      assert t in tail || t in free;
    }
    forall t | 0 <= t < n && owner2[t].Of? ensures owner2[t].o in chains2 && t in chains2[owner2[t].o] {
      var p := owner[t].o;
      var j :| 0 <= j < |chains[p]| && chains[p][j] == t;
      if p == o {
        assert t !in tail && j < k;
        assert chain[..k][j] == t;
      }
    }
  }

  lemma IsShown(bg: map<Obj, BackPtr>, structs: seq<Struct>, chains: map<Obj, seq<nat>>, preds: Preds, o: Obj)
    requires ShowsAll(bg, structs, chains, preds) && o in bg
    ensures preds.Keys == bg.Keys && Shows(bg[o], structs, chains, o, preds[o])
    ensures bg[o] == None ==> preds[o] == []
  {
  }

  lemma NoneShown(bg: map<Obj, BackPtr>, structs: seq<Struct>, chains: map<Obj, seq<nat>>, preds: Preds, p: Obj, q: Obj)
    requires ShowsAll(bg, structs, chains, preds) && Closed(preds) && p in bg && q in bg && bg[q] == None
    ensures ShowsAll(bg[q := One(p)], structs, chains, preds[q := [p]]) && Closed(preds[q := [p]])
  {
    assert Shows(bg[q], structs, chains, q, preds[q]);
    var bg2, preds2 := bg[q := One(p)], preds[q := [p]];
    forall x <- bg2 ensures Shows(bg2[x], structs, chains, x, preds2[x]) {
      assert Shows(bg[x], structs, chains, x, preds[x]);
    }
  }

  // Structure s was linked to the last one of q's chain.
  ghost predicate Longer(structs: seq<Struct>, chains: map<Obj, seq<nat>>, structs2: seq<Struct>,
                         chains2: map<Obj, seq<nat>>,
                         q: Obj, last: nat, s: nat)
  {
    && q in chains && q in chains2 && chains2 == chains[q := chains[q] + [s]]
    && last < |structs| <= |structs2| && s < |structs2| && last != s
    && Linked(structs2, chains2[q]) && structs2[last] == structs[last].(cont := s)
    && forall t :: 0 <= t < |structs| && t != s && t != last ==> structs2[t] == structs[t]
  }

  lemma MyChain(bg: map<Obj, BackPtr>, structs: seq<Struct>, chains: map<Obj, seq<nat>>, preds: Preds, o: Obj)
    requires ShowsAll(bg, structs, chains, preds) && o in bg && bg[o].Many?
    ensures preds.Keys == bg.Keys && Shows(bg[o], structs, chains, o, preds[o])
    ensures o in chains && chains[o] != [] && chains[o][0] == bg[o].at && Stands(structs, chains[o], preds[o])
  {
    assert Shows(bg[o], structs, chains, o, preds[o]);
  }

  // The structures of a chain are neither free nor loose.
  lemma InChain(structs: seq<Struct>, chains: map<Obj, seq<nat>>, free: seq<nat>, owner: seq<Owner>, avail: int, q: Obj)
    requires Stored(structs, chains, free, owner, avail, {}) && q in chains
    ensures |owner| == |structs| && forall i :: 0 <= i < |chains[q]| ==>
              chains[q][i] < |structs| && owner[chains[q][i]] == Of(q)
    ensures Distinct(chains[q]) && forall t :: 0 <= t < |structs| ==> |structs[t].edges| == MAX_IN
  {
  }

  lemma StillLinked(structs: seq<Struct>, structs2: seq<Struct>, chain: seq<nat>, s: nat)
    requires Linked(structs, chain) && SameBut(structs, structs2, s) && forall i :: 0 <= i < |chain| ==> chain[i] != s
    ensures Linked(structs2, chain)
  {
  }

  // A new structure is linked to the last one of a chain.
  lemma LinkFacts(structs0: seq<Struct>, structs: seq<Struct>, chains: map<Obj, seq<nat>>, free: seq<nat>,
                  owner: seq<Owner>, avail: int, s: nat, q: Obj)
    requires Stored(structs, chains, free, owner, avail, {s}) && s < |structs| && structs[s].cont == -1
    requires q in chains && chains[q] != [] && Linked(structs0, chains[q]) && SameBut(structs0, structs, s)
    requires forall i :: 0 <= i < |chains[q]| ==> chains[q][i] < |structs0| && chains[q][i] != s
    ensures var last := chains[q][|chains[q]| - 1];
            && last < |structs0| <= |structs| && s < |owner|
            && Stored(structs[last := structs[last].(cont := s)], chains[q := chains[q] + [s]], free,
                 owner[s := Of(q)], avail, {})
            && Longer(structs0, chains, structs[last := structs[last].(cont := s)], chains[q := chains[q] + [s]], q,
                 last, s)
  {
    StillLinked(structs0, structs, chains[q], s);
    LinkStruct(structs, chains, free, owner, avail, s, q);
    IsStored(structs, chains, free, owner, avail, {s});
    hide Stored, Linked;
  }

  // The loose structure is linked to the end of a chain.
  lemma LinkStruct(structs: seq<Struct>, chains: map<Obj, seq<nat>>, free: seq<nat>, owner: seq<Owner>, avail: int,
                   s: nat, q: Obj)
    requires Stored(structs, chains, free, owner, avail, {s}) && s < |structs| && structs[s].cont == -1
    requires q in chains && chains[q] != [] && Linked(structs, chains[q])
    ensures var chain := chains[q];
            var last := chain[|chain| - 1];
            && last < |structs|
            && Stored(structs[last := structs[last].(cont := s)], chains[q := chain + [s]], free, owner[s := Of(q)],
                 avail, {})
            && Linked(structs[last := structs[last].(cont := s)], chain + [s])
  {
    var chain := chains[q];
    var last := chain[|chain| - 1];
    assert owner[last] == Of(q);
    var structs2 := structs[last := structs[last].(cont := s)];
    LinkParted(|structs|, chains, free, owner, s, q);
    FreeLinked(structs, structs2, chains, free, owner);
    forall i | 0 <= i < |chain| ensures chain[i] != s && structs[chain[i]].cont == NextOf(chain, i) {
      assert owner[chain[i]] == Of(q);
    }
    assert Linked(structs2, chain + [s]);
    hide Parted, Linked;
  }

  lemma LinkParted(n: nat, chains: map<Obj, seq<nat>>, free: seq<nat>, owner: seq<Owner>, s: nat, q: Obj)
    requires Parted(n, chains, free, owner) && s < n && owner[s] == Loose && q in chains
    ensures Parted(n, chains[q := chains[q] + [s]], free, owner[s := Of(q)])
  {
    var chain := chains[q];
    var chains2, owner2 := chains[q := chain + [s]], owner[s := Of(q)];
    forall p, i | p in chains2 && 0 <= i < |chains2[p]| ensures chains2[p][i] < n && owner2[chains2[p][i]] == Of(p) {
      if p != q || i < |chain| { assert owner[chains[p][i]] == Of(p); }
    }
    forall t | 0 <= t < n && owner2[t].Of? ensures owner2[t].o in chains2 && t in chains2[owner2[t].o] {
      if t == s { assert (chain + [s])[|chain|] == s; }
    }
  }

  // A change of what the structures hold, not of their links.
  lemma StoredEdges(structs: seq<Struct>, structs2: seq<Struct>, chains: map<Obj, seq<nat>>, free: seq<nat>,
                    owner: seq<Owner>, avail: int, q: Obj)
    requires Stored(structs, chains, free, owner, avail, {}) && |structs2| == |structs|
    requires forall t :: 0 <= t < |structs| ==> structs2[t].cont == structs[t].cont && |structs2[t].edges| == MAX_IN
    ensures Stored(structs2, chains, free, owner, avail, {})
  {
    forall i | 0 <= i < |free| ensures free[i] < |structs2| && structs2[free[i]].cont == NextOf(free, i) {
      assert structs[free[i]].cont == NextOf(free, i);
    }
  }

  // Room for one more edge in the chain of q, and it is stored there.
  ghost predicate OneMore(structs: seq<Struct>, chain: seq<nat>, preds: seq<Obj>, structs2: seq<Struct>,
                          chain2: seq<nat>, p: Obj) {
    && |chain2| == ChainLength(|preds| + 1) && chain <= chain2 && Linked(structs2, chain2)
    && structs2[chain2[0]].n == |preds| + 1
    && EdgeAt(structs2, chain2, |preds|, p)
    && forall t: nat, q: nat :: t < |preds| && EdgeAt(structs, chain, t, q) ==> EdgeAt(structs2, chain2, t, q)
  }

  lemma OneMoreStands(structs: seq<Struct>, chain: seq<nat>, preds: seq<Obj>, structs2: seq<Struct>, chain2: seq<nat>,
                      p: Obj)
    requires Stands(structs, chain, preds) && OneMore(structs, chain, preds, structs2, chain2, p)
    ensures Stands(structs2, chain2, preds + [p]) && chain <= chain2
  {
    hide EdgeAt, Linked, ChainLength;
  }

  lemma Added(bg: map<Obj, BackPtr>, structs: seq<Struct>, chains: map<Obj, seq<nat>>, preds: Preds,
              structs2: seq<Struct>, chains2: map<Obj, seq<nat>>, free2: seq<nat>, owner2: seq<Owner>, q: Obj, p: Obj)
    requires ShowsAll(bg, structs, chains, preds) && q in bg && bg[q].Many? && q in chains && q in preds && q in chains2
    requires chains2 == chains[q := chains2[q]] && Parted(|structs2|, chains2, free2, owner2)
    requires OneMore(structs, chains[q], preds[q], structs2, chains2[q], p)
    requires |structs| <= |structs2|
    requires forall t :: 0 <= t < |structs| && t !in chains2[q] ==> structs2[t] == structs[t]
    ensures ShowsAll(bg, structs2, chains2, preds[q := preds[q] + [p]])
  {
    hide Stands, OneMore, Linked, Parted;
    var preds2 := preds[q := preds[q] + [p]];
    MyChain(bg, structs, chains, preds, q);
    OneMoreStands(structs, chains[q], preds[q], structs2, chains2[q], p);
    forall x <- bg ensures Shows(bg[x], structs2, chains2, x, preds2[x]) {
      assert Shows(bg[x], structs, chains, x, preds[x]);
      if x != q {
        if x in chains { NotOfOther(|structs2|, chains2, free2, owner2, x, q); }
        ShowsFrame(bg, structs, chains, preds, structs2, x);
      }
    }
  }

  // Chains of different objects have no structure in common.
  lemma NotOfOther(n: nat, chains: map<Obj, seq<nat>>, free: seq<nat>, owner: seq<Owner>, x: Obj, q: Obj)
    requires Parted(n, chains, free, owner) && x in chains && q in chains && x != q
    ensures forall i :: 0 <= i < |chains[x]| ==> chains[x][i] !in chains[q]
  {
    forall i | 0 <= i < |chains[x]| ensures chains[x][i] !in chains[q] {
      assert owner[chains[x][i]] == Of(x);
    }
  }

  // The graph with one more edge.
  lemma AppendedOk(bg: map<Obj, BackPtr>, structs: seq<Struct>, chains: map<Obj, seq<nat>>, preds: Preds,
                   structs2: seq<Struct>, structs3: seq<Struct>, chains2: map<Obj, seq<nat>>, free2: seq<nat>,
                   owner2: seq<Owner>, avail2: int, q: Obj, p: Obj)
    requires ShowsAll(bg, structs, chains, preds) && Closed(preds) && q in bg && bg[q].Many? && p in preds
    requires Stored(structs2, chains2, free2, owner2, avail2, {}) && |structs| <= |structs2| == |structs3|
    requires q in chains && q in preds && q in chains2 && chains2 == chains[q := chains2[q]] && p !in preds[q]
    requires OneMore(structs, chains[q], preds[q], structs3, chains2[q], p)
    requires forall t :: 0 <= t < |structs2| ==>
               structs3[t].cont == structs2[t].cont && |structs3[t].edges| == MAX_IN
    requires forall t :: 0 <= t < |structs| && t !in chains2[q] ==> structs3[t] == structs[t]
    ensures Stored(structs3, chains2, free2, owner2, avail2, {})
    ensures ShowsAll(bg, structs3, chains2, preds[q := preds[q] + [p]]) && Closed(preds[q := preds[q] + [p]])
  {
    hide ShowsAll, Closed, Stored, Parted, OneMore;
    StoredEdges(structs2, structs3, chains2, free2, owner2, avail2, q);
    StoredParted(structs3, chains2, free2, owner2, avail2);
    Added(bg, structs, chains, preds, structs3, chains2, free2, owner2, q, p);
    ClosedAdd(preds, q, p);
  }

  lemma IsReady(structs: seq<Struct>, chain: seq<nat>, structs2: seq<Struct>, chain2: seq<nat>, n: nat)
    requires Ready(structs, chain, structs2, chain2, n)
    ensures |chain2| == ChainLength(n + 1) && |structs| <= |structs2|
    ensures forall i :: 0 <= i < |chain2| ==> chain2[i] < |structs2|
    ensures forall t :: 0 <= t < |structs2| ==> |structs2[t].edges| == MAX_IN
  {
    hide ChainLength;
  }

  lemma WithEdgeKeeps(structs: seq<Struct>, chain: seq<nat>, n: nat, p: Obj)
    requires |chain| == ChainLength(n + 1) && forall i :: 0 <= i < |chain| ==> chain[i] < |structs|
    requires forall t :: 0 <= t < |structs| ==> |structs[t].edges| == MAX_IN
    ensures var r := WithEdge(structs, chain, n, p);
            && (forall t :: 0 <= t < |structs| ==> r[t].cont == structs[t].cont && |r[t].edges| == MAX_IN)
            && (forall t :: 0 <= t < |structs| && t !in chain ==> r[t] == structs[t])
  {
    hide ChainLength;
  }

  lemma ClosedAdd(preds: Preds, q: Obj, p: Obj)
    requires Closed(preds) && q in preds && p in preds && p !in preds[q]
    ensures Closed(preds[q := preds[q] + [p]])
  {
  }

  // The place for one more edge.
  ghost predicate Ready(structs: seq<Struct>, chain: seq<nat>, structs2: seq<Struct>, chain2: seq<nat>, n: nat) {
    && chain <= chain2 && chain != [] && |chain2| == ChainLength(n + 1) && Linked(structs2, chain2) && Distinct(chain2)
    && (forall t :: 0 <= t < |structs2| ==> |structs2[t].edges| == MAX_IN)
    && |structs| <= |structs2|
    && forall i :: 0 <= i < |chain| ==> chain[i] < |structs| && structs2[chain[i]].edges == structs[chain[i]].edges
  }

  lemma ReadyNow(structs: seq<Struct>, chain: seq<nat>, n: nat)
    requires chain != [] && |chain| == ChainLength(n + 1) && Linked(structs, chain) && Distinct(chain)
    requires forall t :: 0 <= t < |structs| ==> |structs[t].edges| == MAX_IN
    ensures Ready(structs, chain, structs, chain, n)
  {
    hide ChainLength;
    assert forall i :: 0 <= i < |chain| ==> chain[i] < |structs|;
  }

  lemma LongerReady(structs: seq<Struct>, chains: map<Obj, seq<nat>>, structs2: seq<Struct>,
                    chains2: map<Obj, seq<nat>>, q: Obj, last: nat, s: nat, n: nat)
    requires Longer(structs, chains, structs2, chains2, q, last, s) && q in chains && q in chains2
    requires chains[q] != [] && |chains[q]| + 1 == ChainLength(n + 1) && Linked(structs, chains[q])
    requires Distinct(chains2[q]) && forall t :: 0 <= t < |structs2| ==> |structs2[t].edges| == MAX_IN
    requires chains[q][0] < |structs| <= |structs2|
    ensures Ready(structs, chains[q], structs2, chains2[q], n)
    ensures chains2 == chains[q := chains2[q]] && chains2[q] == chains[q] + [s]
    ensures structs2[chains[q][0]].n == structs[chains[q][0]].n
    ensures last in chains[q] ==>
              forall t :: 0 <= t < |structs| && t !in chains2[q] ==> structs2[t] == structs[t]
  {
    hide ChainLength, Linked, Distinct;
    var chain, chain2 := chains[q], chains2[q];
    InBounds(structs, chain);
    forall i | 0 <= i < |chain| ensures structs2[chain[i]].edges == structs[chain[i]].edges {
      NotTwice(chain2, i, |chain|);
      assert chain2[i] == chain[i] && chain2[|chain|] == s;
    }
    forall i | 0 <= i < |chain| ensures chain2[i] == chain[i] {}
    if last in chain {
      forall t | 0 <= t < |structs| && t !in chain2 ensures structs2[t] == structs[t] {
        assert s == chain2[|chain|];
        assert last in chain2;
      }
    }
    NotTwice(chain2, 0, |chain|);
  }

  lemma InBounds(structs: seq<Struct>, chain: seq<nat>)
    requires Linked(structs, chain)
    ensures forall i :: 0 <= i < |chain| ==> chain[i] < |structs|
  {
  }

  lemma NotTwice(s: seq<nat>, i: nat, j: nat)
    requires Distinct(s) && i < j < |s|
    ensures s[i] != s[j]
  {
  }

  lemma IsWithEdge(structs: seq<Struct>, chain: seq<nat>, n: nat, p: Obj, be: nat, last: nat, i: nat)
    requires |chain| == ChainLength(n + 1) && forall i :: 0 <= i < |chain| ==> chain[i] < |structs|
    requires forall t :: 0 <= t < |structs| ==> |structs[t].edges| == MAX_IN
    requires be == chain[0] && last == chain[|chain| - 1] && i == n % MAX_IN && structs[be].n == n
    ensures var r := structs[last := structs[last].(edges := structs[last].edges[i := p])];
            r[be := r[be].(n := r[be].n + 1)] == WithEdge(structs, chain, n, p)
  {
    hide ChainLength;
  }

  lemma ShownKeys(bg: map<Obj, BackPtr>, structs: seq<Struct>, chains: map<Obj, seq<nat>>, preds: Preds)
    requires ShowsAll(bg, structs, chains, preds)
    ensures preds.Keys == bg.Keys
  {
    hide Shows;
  }

  // The structures when edge number n has been stored.
  function WithEdge(structs: seq<Struct>, chain: seq<nat>, n: nat, p: Obj): (r: seq<Struct>)
    requires |chain| == ChainLength(n + 1) && forall i :: 0 <= i < |chain| ==> chain[i] < |structs|
    requires forall t :: 0 <= t < |structs| ==> |structs[t].edges| == MAX_IN
    ensures |r| == |structs|
  {
    var last := chain[|chain| - 1];
    var r := structs[last := structs[last].(edges := structs[last].edges[n % MAX_IN := p])];
    r[chain[0] := r[chain[0]].(n := n + 1)]
  }

  lemma Place(c: nat, i: nat)
    requires i < MAX_IN
    ensures (MAX_IN * c + i) / MAX_IN == c && (MAX_IN * c + i) % MAX_IN == i
  {
  }

  lemma SamePart(t: nat, n: nat)
    requires t < n && t / MAX_IN == n / MAX_IN
    ensures t % MAX_IN < n % MAX_IN
  {
  }

  lemma StoreEdge(structs: seq<Struct>, chain: seq<nat>, structs2: seq<Struct>, chain2: seq<nat>, preds: seq<Obj>,
                  p: Obj)
    requires Ready(structs, chain, structs2, chain2, |preds|)
    ensures OneMore(structs, chain, preds, WithEdge(structs2, chain2, |preds|, p), chain2, p)
  {
    var n := |preds|;
    var structs3 := WithEdge(structs2, chain2, n, p);
    assert forall i :: 0 <= i < |chain2| ==> structs3[chain2[i]].cont == structs2[chain2[i]].cont;
    assert n / MAX_IN == |chain2| - 1;
    forall t: nat, q: nat | t < n && EdgeAt(structs, chain, t, q) ensures EdgeAt(structs3, chain2, t, q) {
      KeptEdge(structs, chain, structs2, chain2, n, p, t, q);
    }
  }

  // An edge stored before is still there.
  lemma KeptEdge(structs: seq<Struct>, chain: seq<nat>, structs2: seq<Struct>, chain2: seq<nat>, n: nat, p: Obj,
                 t: nat, q: Obj)
    requires Ready(structs, chain, structs2, chain2, n) && t < n && EdgeAt(structs, chain, t, q)
    ensures EdgeAt(WithEdge(structs2, chain2, n, p), chain2, t, q)
  {
    var i := t / MAX_IN;
    assert chain2[i] == chain[i] && n / MAX_IN == |chain2| - 1;
    if i == |chain2| - 1 { SamePart(t, n); }
  }

  // Where the last of n edges is.
  lemma LastOfChain(n: nat, c: nat, i: nat)
    requires i + MAX_IN * c == n && i <= MAX_IN && (i > 0 || c == 0)
    ensures c == ChainLength(n) - 1
    ensures ChainLength(n + 1) == if i == MAX_IN then c + 2 else c + 1
    ensures n % MAX_IN == if i == MAX_IN then 0 else i
  {
  }

  lemma NotYet(bg: map<Obj, BackPtr>, structs: seq<Struct>, chains: map<Obj, seq<nat>>, preds: Preds, o: Obj)
    requires ShowsAll(bg, structs, chains, preds) && o in bg && !bg[o].Many?
    ensures o !in chains
  {
    assert Shows(bg[o], structs, chains, o, preds[o]);
  }

  lemma LooseStruct(structs: seq<Struct>, chains: map<Obj, seq<nat>>, free: seq<nat>, owner: seq<Owner>, avail: int,
                    s: nat)
    requires Stored(structs, chains, free, owner, avail, {s}) && s < |structs|
    ensures |structs[s].edges| == MAX_IN && |owner| == |structs| && owner[s] == Loose
    ensures Parted(|structs|, chains, free, owner)
  {
  }

  // The loose structure becomes all of the chain of an object.
  lemma Settle(structs: seq<Struct>, chains: map<Obj, seq<nat>>, free: seq<nat>, owner: seq<Owner>, avail: int,
               s: nat, x: Struct, o: Obj)
    requires Stored(structs, chains, free, owner, avail, {s}) && s < |structs| && o !in chains && |x.edges| == MAX_IN
    ensures Stored(structs[s := x], chains[o := [s]], free, owner[s := Of(o)], avail, {})
  {
    SettleParted(|structs|, chains, free, owner, s, o);
    FreeLinked(structs, structs[s := x], chains, free, owner);
    hide Parted, Linked;
  }

  lemma SettleParted(n: nat, chains: map<Obj, seq<nat>>, free: seq<nat>, owner: seq<Owner>, s: nat, o: Obj)
    requires Parted(n, chains, free, owner) && s < n && owner[s] == Loose && o !in chains
    ensures Parted(n, chains[o := [s]], free, owner[s := Of(o)])
  {
    var chains2, owner2 := chains[o := [s]], owner[s := Of(o)];
    forall x, i | x in chains2 && 0 <= i < |chains2[x]| ensures chains2[x][i] < n && owner2[chains2[x][i]] == Of(x) {
      if x != o { assert owner[chains[x][i]] == Of(x); }
    }
  }

  // Structures that are not free can change.
  lemma FreeLinked(structs: seq<Struct>, structs2: seq<Struct>, chains: map<Obj, seq<nat>>, free: seq<nat>,
                   owner: seq<Owner>)
    requires Parted(|structs|, chains, free, owner) && Linked(structs, free) && |structs2| == |structs|
    requires forall t :: 0 <= t < |structs| && owner[t] == Free ==> structs2[t] == structs[t]
    ensures Linked(structs2, free)
  {
    forall i | 0 <= i < |free| ensures free[i] < |structs2| && structs2[free[i]].cont == NextOf(free, i) {
      assert structs[free[i]].cont == NextOf(free, i);
    }
  }

  // A change of structures that are not in the chains of others.
  lemma ShowsFrame(bg: map<Obj, BackPtr>, structs: seq<Struct>, chains: map<Obj, seq<nat>>, preds: Preds,
                   structs2: seq<Struct>, x: Obj)
    requires x in bg && x in preds && Shows(bg[x], structs, chains, x, preds[x]) && |structs| <= |structs2|
    requires x in chains ==> forall i :: 0 <= i < |chains[x]| && chains[x][i] < |structs| ==>
               structs2[chains[x][i]] == structs[chains[x][i]]
    ensures Shows(bg[x], structs2, chains, x, preds[x])
  {
    if bg[x].Many? {
      assert forall i :: 0 <= i < |chains[x]| ==> chains[x][i] < |structs|;
      StandsFrame(structs, structs2, chains[x], preds[x]);
    }
  }

  // All structures but the loose one s are what they were.
  ghost predicate SameBut(structs: seq<Struct>, structs2: seq<Struct>, s: nat) {
    |structs| <= |structs2| && forall t :: 0 <= t < |structs| && t != s ==> structs2[t] == structs[t]
  }

  // An object with at most one predecessor gets a structure.
  lemma ShowsStruct(bg: map<Obj, BackPtr>, structs: seq<Struct>, chains: map<Obj, seq<nat>>, preds: Preds,
                    structs2: seq<Struct>, free: seq<nat>, owner2: seq<Owner>, s: nat, o: Obj)
    requires ShowsAll(bg, structs, chains, preds) && Parted(|structs2|, chains, free, owner2)
    requires s < |structs2| && owner2[s] == Loose && SameBut(structs, structs2, s) && o in bg && !bg[o].Many?
    requires var x := structs2[s];
             && x.cont == -1 && |x.edges| == MAX_IN
             && x.n == (if bg[o].One? then 1 else 0) && (bg[o].One? ==> x.edges[0] == bg[o].pred)
    ensures ShowsAll(bg[o := Many(s)], structs2, chains[o := [s]], preds)
  {
    assert Shows(bg[o], structs, chains, o, preds[o]);
    assert Stands(structs2, [s], preds[o]);
    var bg2, chains2 := bg[o := Many(s)], chains[o := [s]];
    forall x <- bg2 ensures Shows(bg2[x], structs2, chains2, x, preds[x]) {
      if x != o {
        assert x in chains ==> forall i :: 0 <= i < |chains[x]| ==> owner2[chains[x][i]] == Of(x);
        ShowsFrame(bg, structs, chains, preds, structs2, x);
      }
    }
  }

  lemma TakeFree(n: nat, chains: map<Obj, seq<nat>>, free: seq<nat>, owner: seq<Owner>)
    requires Parted(n, chains, free, owner) && free != []
    ensures Parted(n, chains, free[1..], owner[free[0] := Loose])
  {
    var owner2 := owner[free[0] := Loose];
    forall s | 0 <= s < n && owner2[s] == Free ensures s in free[1..] {
      var i :| 0 <= i < |free| && free[i] == s;
      assert free[1..][i - 1] == s;
    }
  }

  lemma IsStored(structs: seq<Struct>, chains: map<Obj, seq<nat>>, free: seq<nat>, owner: seq<Owner>, avail: int,
                 loose: set<nat>)
    requires Stored(structs, chains, free, owner, avail, loose)
    ensures |owner| == |structs| && avail == if free == [] then -1 else free[0]
  {
  }

  lemma StoredMeans(structs: seq<Struct>, chains: map<Obj, seq<nat>>, free: seq<nat>, owner: seq<Owner>, avail: int,
                    loose: set<nat>)
    ensures Stored(structs, chains, free, owner, avail, loose) <==>
            && |owner| == |structs| && Parted(|structs|, chains, free, owner) && Linked(structs, free)
            && (forall s :: 0 <= s < |structs| ==> (owner[s] == Loose <==> s in loose))
            && (forall s :: 0 <= s < |structs| ==> |structs[s].edges| == MAX_IN)
            && avail == if free == [] then -1 else free[0]
  {
  }

  lemma FirstFree(n: nat, chains: map<Obj, seq<nat>>, free: seq<nat>, owner: seq<Owner>)
    requires Parted(n, chains, free, owner) && free != []
    ensures free[0] < n == |owner| && owner[free[0]] == Free && Distinct(free)
  {
  }

  // What is linked behind the first structure does not depend on it.
  lemma LinkedRest(structs: seq<Struct>, list: seq<nat>)
    requires Linked(structs, list) && Distinct(list) && list != []
    ensures Linked(structs[list[0] := structs[list[0]].(cont := -1)], list[1..])
  {
  }

  lemma TakeStored(structs: seq<Struct>, chains: map<Obj, seq<nat>>, free: seq<nat>, owner: seq<Owner>, avail: int)
    requires Stored(structs, chains, free, owner, avail, {}) && free != []
    ensures var s := free[0];
            && s < |structs| && owner[s] == Free && structs[s].cont >= -1
            && Stored(structs[s := structs[s].(cont := -1)], chains, free[1..], owner[s := Loose], structs[s].cont, {s})
  {
    hide Stored, Parted;
    StoredMeans(structs, chains, free, owner, avail, {});
    FirstFree(|structs|, chains, free, owner);
    TakeFree(|structs|, chains, free, owner);
    assert structs[free[0]].cont == NextOf(free, 0);
    var s := free[0];
    var structs2, owner2 := structs[s := structs[s].(cont := -1)], owner[s := Loose];
    LinkedRest(structs, free);
    StoredMeans(structs2, chains, free[1..], owner2, structs[s].cont, {s});
  }

  lemma AddStored(structs: seq<Struct>, chains: map<Obj, seq<nat>>, free: seq<nat>, owner: seq<Owner>, avail: int)
    requires Stored(structs, chains, free, owner, avail, {})
    ensures |structs + [Zeroed()]| == |structs| + 1 && Zeroed().cont == -1
    ensures Stored(structs + [Zeroed()], chains, free, owner + [Loose], avail, {|structs|})
  {
    hide Stored, Parted, Linked;
    StoredMeans(structs, chains, free, owner, avail, {});
    AddLoose(|structs|, chains, free, owner);
    LinkedMore(structs, free, Zeroed());
    var structs2, owner2 := structs + [Zeroed()], owner + [Loose];
    forall s | 0 <= s < |structs2|
      ensures (owner2[s] == Loose <==> s in {|structs|}) && |structs2[s].edges| == MAX_IN
    {
      if s < |structs| { assert owner2[s] == owner[s] && structs2[s] == structs[s]; }
    }
    StoredMeans(structs2, chains, free, owner2, avail, {|structs|});
  }

  lemma LinkedMore(structs: seq<Struct>, list: seq<nat>, x: Struct)
    requires Linked(structs, list)
    ensures Linked(structs + [x], list)
  {
  }

  lemma AddLoose(n: nat, chains: map<Obj, seq<nat>>, free: seq<nat>, owner: seq<Owner>)
    requires Parted(n, chains, free, owner)
    ensures Parted(n + 1, chains, free, owner + [Loose])
  {
  }
}
