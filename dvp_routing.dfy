/**
 * The distance-vector routing node (dvp/src/my_protocol/MyRoutingProtocol.java).
 * Each tick the node reads its neighbours' advertisements, keeps one cost row
 * per neighbour heard, forgets silent neighbours, rebuilds its routing table
 * as the cheapest route per destination and broadcasts that table.
 *
 * The network has the node addresses 1..NODES; column c of a table belongs
 * to address c + 1. Neighbour rows are visited in ascending address order,
 * the order in which a Java HashMap hands out small Integer keys.
 */
module DistanceVector {
  import opened JavaInt
  import opened IntSets

  const NODES: int := 6

  /** A routing-table entry: the neighbour to forward to and the total cost. */
  datatype Route = Route(nextHop: int, cost: int)

  /** A 2 x NODES data table: row 0 holds costs, row 1 next hops; -1 means none. */
  datatype DataTable = DataTable(costs: seq<int>, nextHops: seq<int>)

  /** A neighbour's broadcast together with the cost of the link it came over. */
  datatype PacketWithLinkCost = PacketWithLinkCost(source: int, table: DataTable, linkCost: int)

  predicate WellFormed(t: DataTable)
  {
    |t.costs| == NODES && |t.nextHops| == NODES
  }

  predicate AllWellFormed(packets: seq<PacketWithLinkCost>)
  {
    forall i :: 0 <= i < |packets| ==> WellFormed(packets[i].table)
  }

  /** Every stored neighbour row has one cost per destination. */
  predicate RowsOk(nc: map<int, seq<int>>)
  {
    forall n :: n in nc ==> |nc[n]| == NODES
  }

  /**
   * Column i of the row kept for the sender: the advertised cost plus the
   * link cost, wrapped to 32 bits, or -1 when the neighbour has no route or
   * routes through this node.
   */
  function TotalCost(t: DataTable, i: int, linkCost: int, myAddr: int): int
    requires WellFormed(t) && 0 <= i < NODES
  {
    if t.costs[i] != -1 && t.nextHops[i] != myAddr then Wrap(t.costs[i] + linkCost) else -1
  }

  /** The cost row processPacket stores for the sender of p. */
  function CostRow(p: PacketWithLinkCost, myAddr: int): (row: seq<int>)
    requires WellFormed(p.table)
    ensures |row| == NODES
    ensures forall i :: 0 <= i < NODES && row[i] != -1 ==>
      p.table.costs[i] != -1 && p.table.nextHops[i] != myAddr
    ensures forall i :: (0 <= i < NODES && p.table.costs[i] != -1 && p.table.nextHops[i] != myAddr
      && IsInt(p.table.costs[i] + p.linkCost)) ==> row[i] == p.table.costs[i] + p.linkCost
  {
    seq(NODES, i requires 0 <= i < NODES => TotalCost(p.table, i, p.linkCost, myAddr))
  }

  /** The senders of a batch of packets. */
  function Sources(packets: seq<PacketWithLinkCost>): set<int>
  {
    set i | 0 <= i < |packets| :: packets[i].source
  }

  /** The neighbour rows after processing the packets in order. */
  function ProcessAll(nc: map<int, seq<int>>, packets: seq<PacketWithLinkCost>, myAddr: int): map<int, seq<int>>
    requires AllWellFormed(packets)
    decreases |packets|
  {
    if packets == [] then nc
    else
      var last := packets[|packets| - 1];
      ProcessAll(nc, packets[..|packets| - 1], myAddr)[last.source := CostRow(last, myAddr)]
  }

  /** A batch is its front plus its last packet, as far as senders go. */
  lemma SourcesStep(packets: seq<PacketWithLinkCost>)
    requires packets != []
    ensures Sources(packets) == Sources(packets[..|packets| - 1]) + {packets[|packets| - 1].source}
  {
    var front := packets[..|packets| - 1];
    assert forall i :: 0 <= i < |front| ==> front[i] == packets[i];
  }

  /** The index of the last packet in the batch sent by n. */
  function LastFrom(packets: seq<PacketWithLinkCost>, n: int): (j: int)
    requires n in Sources(packets)
    ensures 0 <= j < |packets| && packets[j].source == n
    ensures forall k :: j < k < |packets| ==> packets[k].source != n
    decreases |packets|
  {
    var last := |packets| - 1;
    if packets[last].source == n then last
    else
      SourcesStep(packets);
      var j := LastFrom(packets[..last], n);
      assert forall k :: j < k < last ==> packets[k] == packets[..last][k];
      j
  }

  /**
   * Processing a batch keeps the rows of the neighbours that did not send,
   * and gives each sender the row of its last packet: a later packet from
   * the same neighbour replaces the earlier row.
   */
  lemma {:induction false} ProcessAllRows(nc: map<int, seq<int>>, packets: seq<PacketWithLinkCost>, myAddr: int)
    requires AllWellFormed(packets)
    ensures var r := ProcessAll(nc, packets, myAddr);
      && r.Keys == nc.Keys + Sources(packets)
      && (forall n :: n in nc && n !in Sources(packets) ==> r[n] == nc[n])
      && (forall n :: n in Sources(packets) ==> r[n] == CostRow(packets[LastFrom(packets, n)], myAddr))
    decreases |packets|
  {
    if packets != [] {
      var front := packets[..|packets| - 1];
      ProcessAllRows(nc, front, myAddr);
      SourcesStep(packets);
      forall n | n in Sources(packets) && n != packets[|packets| - 1].source
        ensures LastFrom(packets, n) == LastFrom(front, n)
      {
      }
    }
  }

  /** The map without the keys outside s. */
  function Restrict<V>(m: map<int, V>, s: set<int>): map<int, V>
  {
    map k | k in m && k in s :: m[k]
  }

  /**
   * The inner step of resetRoutingTable for one destination: a real cost
   * from neighbour n to a destination other than this node replaces the
   * route when there is none yet or when it is strictly cheaper.
   */
  function Offer(rt: map<int, Route>, n: int, dest: int, cost: int, myAddr: int): map<int, Route>
  {
    if dest != myAddr && cost != -1 && (dest !in rt || rt[dest].cost > cost) then rt[dest := Route(n, cost)] else rt
  }

  /** The inner loop of resetRoutingTable over columns 0..i-1 of neighbour n's row. */
  function RelaxRow(rt: map<int, Route>, n: int, row: seq<int>, myAddr: int, i: nat): map<int, Route>
    requires i <= |row|
  {
    if i == 0 then rt else Offer(RelaxRow(rt, n, row, myAddr, i - 1), n, i, row[i - 1], myAddr)
  }

  /** The outer loop of resetRoutingTable over the given neighbours, least address first. */
  ghost function RelaxAll(nc: map<int, seq<int>>, keys: set<int>, rt: map<int, Route>, myAddr: int): map<int, Route>
    requires RowsOk(nc) && keys <= nc.Keys
    decreases keys
  {
    if keys == {} then rt
    else
      var n := Min(keys);
      RelaxAll(nc, keys - {n}, RelaxRow(rt, n, nc[n], myAddr, NODES), myAddr)
  }

  /** The table resetRoutingTable builds from scratch. */
  ghost function RoutingTable(nc: map<int, seq<int>>, myAddr: int): map<int, Route>
    requires RowsOk(nc)
  {
    RelaxAll(nc, nc.Keys, map[], myAddr)
  }

  /**
   * r is the route to dest chosen among the neighbours in d: its next hop
   * offers dest at exactly its cost, no neighbour in d offers it cheaper,
   * and every neighbour with a smaller address offers it strictly dearer.
   */
  ghost predicate BestAmong(nc: map<int, seq<int>>, d: set<int>, dest: int, r: Route)
    requires RowsOk(nc) && d <= nc.Keys && 1 <= dest <= NODES
  {
    && r.nextHop in d && r.cost == nc[r.nextHop][dest - 1] && r.cost != -1
    && (forall n :: n in d && nc[n][dest - 1] != -1 ==> r.cost <= nc[n][dest - 1])
    && (forall n :: n in d && n < r.nextHop && nc[n][dest - 1] != -1 ==> r.cost < nc[n][dest - 1])
  }

  /** Some neighbour in d has a cost other than -1 for dest. */
  ghost predicate Reachable(nc: map<int, seq<int>>, d: set<int>, dest: int)
    requires RowsOk(nc) && d <= nc.Keys && 1 <= dest <= NODES
  {
    exists n :: n in d && nc[n][dest - 1] != -1
  }

  /**
   * rt is the routing table over the neighbours in d: a route to exactly the
   * destinations other than this node that some neighbour reaches, each the
   * best among them.
   */
  ghost predicate BestTable(nc: map<int, seq<int>>, d: set<int>, rt: map<int, Route>, myAddr: int)
    requires RowsOk(nc) && d <= nc.Keys
  {
    && (forall dest :: dest in rt ==> 1 <= dest <= NODES && dest != myAddr)
    && (forall dest :: 1 <= dest <= NODES ==>
          (dest in rt <==> dest != myAddr && Reachable(nc, d, dest))
          && (dest in rt ==> BestAmong(nc, d, dest, rt[dest])))
  }

  /** The inner loop changes only the destinations 1..i, each by one Offer. */
  lemma {:induction false} RelaxRowAt(rt: map<int, Route>, n: int, row: seq<int>, myAddr: int, i: nat)
    requires i <= |row|
    ensures var r := RelaxRow(rt, n, row, myAddr, i);
      && (forall dest :: (dest < 1 || dest > i) ==> (dest in r <==> dest in rt) && (dest in rt ==> r[dest] == rt[dest]))
      && (forall dest :: 1 <= dest <= i ==>
            (dest in r <==> dest in Offer(rt, n, dest, row[dest - 1], myAddr))
            && (dest in r ==> r[dest] == Offer(rt, n, dest, row[dest - 1], myAddr)[dest]))
    decreases i
  {
    if i > 0 {
      RelaxRowAt(rt, n, row, myAddr, i - 1);
    }
  }

  /** One destination's step when neighbour n, above all of d, is added to d. */
  lemma OfferAt(nc: map<int, seq<int>>, d: set<int>, rt: map<int, Route>, myAddr: int, n: int, dest: int)
    requires RowsOk(nc) && d <= nc.Keys && n in nc && n !in d && forall k :: k in d ==> k < n
    requires BestTable(nc, d, rt, myAddr) && 1 <= dest <= NODES
    ensures var o := Offer(rt, n, dest, nc[n][dest - 1], myAddr);
      && (dest in o <==> dest != myAddr && Reachable(nc, d + {n}, dest))
      && (dest in o ==> BestAmong(nc, d + {n}, dest, o[dest]))
  {
    var c := nc[n][dest - 1];
    var o := Offer(rt, n, dest, c, myAddr);
    if dest != myAddr && c != -1 {
      assert Reachable(nc, d + {n}, dest);
      if dest in rt && rt[dest].cost <= c {
        assert o[dest] == rt[dest];
      } else {
        assert o[dest] == Route(n, c);
        if dest in rt {
          assert BestAmong(nc, d, dest, rt[dest]);
        } else {
          assert !Reachable(nc, d, dest);
        }
      }
    } else if dest != myAddr {
      assert Reachable(nc, d + {n}, dest) == Reachable(nc, d, dest);
      if dest in rt {
        assert BestAmong(nc, d, dest, rt[dest]);
      }
    }
  }

  /** Relaxing one more neighbour, above all those already relaxed, keeps the table the best over them. */
  lemma RelaxRowBest(nc: map<int, seq<int>>, d: set<int>, rt: map<int, Route>, myAddr: int, n: int)
    requires RowsOk(nc) && d <= nc.Keys && n in nc && n !in d && forall k :: k in d ==> k < n
    requires BestTable(nc, d, rt, myAddr)
    ensures BestTable(nc, d + {n}, RelaxRow(rt, n, nc[n], myAddr, NODES), myAddr)
  {
    var r := RelaxRow(rt, n, nc[n], myAddr, NODES);
    RelaxRowAt(rt, n, nc[n], myAddr, NODES);
    forall dest | 1 <= dest <= NODES
      ensures (dest in r <==> dest != myAddr && Reachable(nc, d + {n}, dest))
        && (dest in r ==> BestAmong(nc, d + {n}, dest, r[dest]))
    {
      OfferAt(nc, d, rt, myAddr, n, dest);
      RelaxRowAt(rt, n, nc[n], myAddr, NODES);
      var o := Offer(rt, n, dest, nc[n][dest - 1], myAddr);
      assert dest in RelaxRow(rt, n, nc[n], myAddr, NODES) <==> dest in o;
      assert dest in r <==> dest in o;
      assert dest in o ==> r[dest] == o[dest];
    }
  }

  /** The outer loop, from any best table over the neighbours below those left, ends in the best table over all. */
  lemma {:induction false} RelaxAllBest(nc: map<int, seq<int>>, keys: set<int>, d: set<int>, rt: map<int, Route>, myAddr: int)
    requires RowsOk(nc) && keys + d == nc.Keys && keys !! d
    requires forall a, b :: a in d && b in keys ==> a < b
    requires BestTable(nc, d, rt, myAddr)
    ensures BestTable(nc, nc.Keys, RelaxAll(nc, keys, rt, myAddr), myAddr)
    decreases keys
  {
    if keys != {} {
      var n := Min(keys);
      RelaxRowBest(nc, d, rt, myAddr, n);
      RelaxAllBest(nc, keys - {n}, d + {n}, RelaxRow(rt, n, nc[n], myAddr, NODES), myAddr);
    }
  }

  /**
   * resetRoutingTable yields no route to this node, a route to every other
   * destination some neighbour reaches and to no other, each at the least
   * cost offered, through the neighbour with the least address among those
   * offering that cost.
   */
  lemma RoutingTableIsBest(nc: map<int, seq<int>>, myAddr: int)
    requires RowsOk(nc)
    ensures BestTable(nc, nc.Keys, RoutingTable(nc, myAddr), myAddr)
  {
    RelaxAllBest(nc, nc.Keys, {}, map[], myAddr);
  }

  /** The 2 x NODES table getBestRoutes broadcasts. */
  function Advertisement(rt: map<int, Route>, myAddr: int): (t: DataTable)
    ensures WellFormed(t)
  {
    DataTable(
      seq(NODES, col => if col + 1 in rt then rt[col + 1].cost else if col + 1 == myAddr then 0 else -1),
      seq(NODES, col => if col + 1 in rt then rt[col + 1].nextHop else -1))
  }

  /**
   * The broadcast of a rebuilt table: cost 0 and next hop -1 for this node,
   * -1 / -1 for a destination no neighbour reaches, and otherwise the least
   * offered cost and the first neighbour offering it.
   */
  lemma AdvertisedBest(nc: map<int, seq<int>>, myAddr: int, col: int)
    requires RowsOk(nc) && 0 <= col < NODES
    ensures var t := Advertisement(RoutingTable(nc, myAddr), myAddr);
      && (col + 1 == myAddr ==> t.costs[col] == 0 && t.nextHops[col] == -1)
      && (col + 1 != myAddr && !Reachable(nc, nc.Keys, col + 1) ==> t.costs[col] == -1 && t.nextHops[col] == -1)
      && (col + 1 != myAddr && Reachable(nc, nc.Keys, col + 1) ==>
            BestAmong(nc, nc.Keys, col + 1, Route(t.nextHops[col], t.costs[col])))
  {
    RoutingTableIsBest(nc, myAddr);
  }

  class MyRoutingProtocol {
    /** The address of this node, as the link layer reports it. */
    const myAddr: int
    /** Per neighbour, its advertised costs plus the link cost. */
    var neighborCosts: map<int, seq<int>>
    var routingTable: map<int, Route>
    /** The neighbours heard during the current tick. */
    var updatedNeighbors: set<int>
    /** The neighbours heard during the previous tick. */
    var neighbors: set<int>
    /** The tables broadcast so far, in order. */
    var transmitted: seq<DataTable>

    /**
     * Between ticks: one full row per neighbour heard last tick and for no
     * other node, nobody heard yet this tick, and the routing table rebuilt
     * from the rows.
     */
    ghost predicate Valid()
      reads this
    {
      && RowsOk(neighborCosts)
      && neighborCosts.Keys == neighbors
      && updatedNeighbors == {}
      && routingTable == RoutingTable(neighborCosts, myAddr)
    }

    constructor (ownAddress: int)
      ensures Valid() && myAddr == ownAddress
      ensures neighborCosts == map[] && routingTable == map[] && neighbors == {} && transmitted == []
    {
      myAddr := ownAddress;
      neighborCosts, routingTable := map[], map[];
      updatedNeighbors, neighbors := {}, {};
      transmitted := [];
    }

    /**
     * tick: process the packets, forget the neighbours not heard, rebuild
     * the routing table and broadcast it. Afterwards the neighbours are
     * exactly this tick's senders, each with the row of its last packet.
     */
    method Tick(packetsWithLinkCosts: seq<PacketWithLinkCost>)
      requires Valid() && AllWellFormed(packetsWithLinkCosts)
      modifies this`neighborCosts, this`routingTable, this`updatedNeighbors, this`neighbors, this`transmitted
      ensures Valid()
      ensures neighbors == Sources(packetsWithLinkCosts)
      ensures neighborCosts == Restrict(ProcessAll(old(neighborCosts), packetsWithLinkCosts, myAddr), neighbors)
      ensures transmitted == old(transmitted) + [Advertisement(routingTable, myAddr)]
    {
      ghost var nc0 := neighborCosts;
      for i := 0 to |packetsWithLinkCosts|
        invariant RowsOk(neighborCosts)
        invariant neighborCosts == ProcessAll(nc0, packetsWithLinkCosts[..i], myAddr)
        invariant updatedNeighbors == Sources(packetsWithLinkCosts[..i])
        invariant neighbors == old(neighbors) && transmitted == old(transmitted)
      {
        var p := packetsWithLinkCosts[i];
        assert packetsWithLinkCosts[..i + 1][..i] == packetsWithLinkCosts[..i];
        assert Sources(packetsWithLinkCosts[..i + 1]) == Sources(packetsWithLinkCosts[..i]) + {p.source} by {
          assert forall j :: 0 <= j <= i ==> packetsWithLinkCosts[..i + 1][j] == packetsWithLinkCosts[j];
        }
        ProcessPacket(p);
      }
      assert packetsWithLinkCosts[..|packetsWithLinkCosts|] == packetsWithLinkCosts;
      ghost var nc1 := neighborCosts;
      ProcessAllRows(nc0, packetsWithLinkCosts, myAddr);
      ForgetSilent();
      assert neighborCosts == Restrict(nc1, updatedNeighbors);
      neighbors := updatedNeighbors;
      updatedNeighbors := {};
      ResetRoutingTable();
      var table := GetBestRoutes();
      transmitted := transmitted + [table];
    }

    /**
     * processPacket: the sender counts as heard this tick, and its row is
     * replaced by its advertised costs plus the link cost.
     */
    method ProcessPacket(p: PacketWithLinkCost)
      requires WellFormed(p.table)
      modifies this`neighborCosts, this`updatedNeighbors
      ensures neighborCosts == old(neighborCosts)[p.source := CostRow(p, myAddr)]
      ensures updatedNeighbors == old(updatedNeighbors) + {p.source}
    {
      var sourceAddr := p.source;
      updatedNeighbors := updatedNeighbors + {sourceAddr};
      var costs, nextHopes := p.table.costs, p.table.nextHops;
      var totalCosts: seq<int> := seq(NODES, _ => -1);
      for i := 0 to NODES
        invariant |totalCosts| == NODES
        invariant forall j :: 0 <= j < i ==> totalCosts[j] == TotalCost(p.table, j, p.linkCost, myAddr)
        invariant i == 0 ==> neighborCosts == old(neighborCosts)
        invariant i > 0 ==> neighborCosts == old(neighborCosts)[sourceAddr := totalCosts]
        invariant updatedNeighbors == old(updatedNeighbors) + {sourceAddr}
      {
        var total := if costs[i] != -1 && nextHopes[i] != myAddr then Wrap(costs[i] + p.linkCost) else -1;
        totalCosts := totalCosts[i := total];
        neighborCosts := neighborCosts[sourceAddr := totalCosts];
      }
      assert totalCosts == CostRow(p, myAddr);
    }

    /**
     * The loop of tick over last tick's neighbours: each one not heard this
     * tick loses its row and its route. What is left are the rows of the
     * nodes heard this tick.
     */
    method ForgetSilent()
      requires RowsOk(neighborCosts) && neighborCosts.Keys == neighbors + updatedNeighbors
      modifies this`neighborCosts, this`routingTable
      ensures RowsOk(neighborCosts)
      ensures neighborCosts == Restrict(old(neighborCosts), updatedNeighbors)
    {
      ghost var nc := neighborCosts;
      var rest := neighbors;
      while rest != {}
        invariant rest <= neighbors
        invariant neighborCosts == map k | k in nc && (k in rest || k !in neighbors || k in updatedNeighbors) :: nc[k]
        decreases rest
      {
        MinExists(rest);
        var neighbor :| neighbor in rest;
        if neighbor !in updatedNeighbors {
          routingTable := routingTable - {neighbor};
          neighborCosts := neighborCosts - {neighbor};
        }
        rest := rest - {neighbor};
      }
    }

    /** resetRoutingTable: rebuild the table from the neighbour rows, least neighbour address first. */
    method ResetRoutingTable()
      requires RowsOk(neighborCosts)
      modifies this`routingTable
      ensures routingTable == RoutingTable(neighborCosts, myAddr)
    {
      routingTable := map[];
      var keys := neighborCosts.Keys;
      while keys != {}
        invariant keys <= neighborCosts.Keys
        invariant RelaxAll(neighborCosts, keys, routingTable, myAddr) == RoutingTable(neighborCosts, myAddr)
        decreases keys
      {
        MinExists(keys);
        var nextHope :| nextHope in keys && forall j :: j in keys ==> nextHope <= j;
        assert nextHope == Min(keys);
        var linkCosts := neighborCosts[nextHope];
        ghost var rt0 := routingTable;
        for i := 0 to NODES
          invariant routingTable == RelaxRow(rt0, nextHope, linkCosts, myAddr, i)
        {
          var destAddr := i + 1;
          var linkCost := linkCosts[i];
          if destAddr != myAddr && linkCost != -1 {
            if destAddr !in routingTable || routingTable[destAddr].cost > linkCost {
              routingTable := routingTable[destAddr := Route(nextHope, linkCost)];
            }
          }
        }
        keys := keys - {nextHope};
      }
    }

    /** getBestRoutes: fill the broadcast table column by column. */
    method GetBestRoutes() returns (routeTable: DataTable)
      ensures routeTable == Advertisement(routingTable, myAddr)
    {
      var costs: seq<int> := [];
      var nextHops: seq<int> := [];
      for col := 0 to NODES
        invariant |costs| == col && |nextHops| == col
        invariant costs == Advertisement(routingTable, myAddr).costs[..col]
        invariant nextHops == Advertisement(routingTable, myAddr).nextHops[..col]
      {
        var destAddr := col + 1;
        var cost := if myAddr == destAddr then 0 else -1;
        var nextHope := -1;
        if destAddr in routingTable {
          var route := routingTable[destAddr];
          cost := route.cost;
          nextHope := route.nextHop;
        }
        costs := costs + [cost];
        nextHops := nextHops + [nextHope];
      }
      routeTable := DataTable(costs, nextHops);
    }

    /**
     * getForwardingTable: the next hop of every route. Each one is a
     * neighbour heard last tick.
     */
    method GetForwardingTable() returns (forwardingTable: map<int, int>)
      requires Valid()
      ensures forwardingTable.Keys == routingTable.Keys
      ensures forall k :: k in forwardingTable ==> forwardingTable[k] == routingTable[k].nextHop
      ensures forall k :: k in forwardingTable ==> forwardingTable[k] in neighbors
    {
      RoutingTableIsBest(neighborCosts, myAddr);
      forwardingTable := map[];
      var entries := routingTable.Keys;
      while entries != {}
        invariant entries <= routingTable.Keys
        invariant forwardingTable.Keys == routingTable.Keys - entries
        invariant forall k :: k in forwardingTable ==> forwardingTable[k] == routingTable[k].nextHop
        decreases entries
      {
        MinExists(entries);
        var key :| key in entries;
        forwardingTable := forwardingTable[key := routingTable[key].nextHop];
        entries := entries - {key};
      }
    }
  }
}
