/** Longest-chain consensus: one node's `resolve`, and a network of nodes. */
module Consensus {
  import opened Chain
  import opened Ledger
  import opened LedgerInvariants
  import opened Models
  import opened Wallets
  import opened Wrappers

  type BlockChain = seq<Block>

  /** Going through the fetched chains in order, a strictly longer valid one replaces the best so far. */
  function Adopt(valid: BlockChain -> bool, local: BlockChain, fetched: seq<Option<BlockChain>>): BlockChain {
    if fetched == [] then local
    else
      var best := Adopt(valid, local, fetched[..|fetched| - 1]);
      match fetched[|fetched| - 1]
      case None => best
      case Some(remote) => if |remote| > |best| && valid(remote) then remote else best
  }

  function Validity(prims: Primitives, ws: Option<WalletMap>): BlockChain -> bool {
    c => ValidChain(prims, ws, c)
  }

  /** The result is the local chain or a longer valid fetched one, at least as long as every valid fetched chain. */
  lemma {:induction false} AdoptTakesLongest(valid: BlockChain -> bool, local: BlockChain,
                                             fetched: seq<Option<BlockChain>>)
    ensures var best := Adopt(valid, local, fetched);
            && (best == local || (|best| > |local| && valid(best) && Some(best) in fetched))
            && (forall i :: 0 <= i < |fetched| && fetched[i].Some? && valid(fetched[i].value) ==>
                  |fetched[i].value| <= |best|)
  {
    if fetched != [] {
      var front := fetched[..|fetched| - 1];
      AdoptTakesLongest(valid, local, front);
      assert forall c :: c in front ==> c in fetched;
      assert fetched[|fetched| - 1] in fetched;
      forall i | 0 <= i < |fetched| && fetched[i].Some? && valid(fetched[i].value)
        ensures |fetched[i].value| <= |Adopt(valid, local, fetched)|
      {
        if i < |front| { assert front[i] == fetched[i]; }
      }
    }
  }

  /** The chain changes if and only if some fetched chain is valid and longer. */
  lemma AdoptsIff(valid: BlockChain -> bool, local: BlockChain, fetched: seq<Option<BlockChain>>)
    ensures Adopt(valid, local, fetched) != local
       <==> exists i :: 0 <= i < |fetched| && fetched[i].Some? && valid(fetched[i].value)
                         && |fetched[i].value| > |local|
  {
    AdoptTakesLongest(valid, local, fetched);
    var best := Adopt(valid, local, fetched);
    if best != local {
      var i :| 0 <= i < |fetched| && fetched[i] == Some(best);
      assert valid(fetched[i].value) && |fetched[i].value| > |local|;
    }
  }

  /** Among valid chains of the winning length the first one fetched wins. */
  lemma {:induction false} AdoptTakesFirstOfLongest(valid: BlockChain -> bool, local: BlockChain,
                                                    fetched: seq<Option<BlockChain>>, i: nat)
    requires i < |fetched| && fetched[i].Some? && valid(fetched[i].value)
    requires |fetched[i].value| > |local|
    requires forall j :: 0 <= j < |fetched| && fetched[j].Some? && valid(fetched[j].value) ==>
               if j < i then |fetched[j].value| < |fetched[i].value| else |fetched[j].value| <= |fetched[i].value|
    ensures Adopt(valid, local, fetched) == fetched[i].value
  {
    var n := |fetched| - 1;
    var front := fetched[..n];
    if i < n {
      assert forall j :: 0 <= j < n ==> front[j] == fetched[j];
      AdoptTakesFirstOfLongest(valid, local, front, i);
    } else {
      AdoptTakesLongest(valid, local, front);
      assert forall j :: 0 <= j < n ==> front[j] == fetched[j];
      var best := Adopt(valid, local, front);
      if best != local {
        var j :| 0 <= j < |front| && front[j] == Some(best);
        assert fetched[j] == Some(best);
      }
    }
  }

  class ConsensusService {
    const chain: BlockchainService

    constructor (chain: BlockchainService)
      ensures this.chain == chain
    {
      this.chain := chain;
    }

    /** `fetched` holds what the registered peers returned, in registry order; None is a failed fetch. */
    method Resolve(fetched: seq<Option<BlockChain>>) returns (replaced: bool)
      modifies chain.repo
      ensures chain.repo.blocks == Adopt(Validity(chain.prims, chain.WalletView()), old(chain.repo.blocks), fetched)
      ensures replaced <==> |chain.repo.blocks| > |old(chain.repo.blocks)|
      ensures !replaced ==> chain.repo.blocks == old(chain.repo.blocks)
      ensures replaced ==> ValidChain(chain.prims, chain.WalletView(), chain.repo.blocks)
    {
      ghost var valid := Validity(chain.prims, chain.WalletView());
      ghost var local := chain.repo.blocks;
      var bestBlocks: Option<BlockChain> := None;
      var bestLength := |chain.repo.blocks|;
      for i := 0 to |fetched|
        invariant bestLength == |Adopt(valid, local, fetched[..i])| >= |local|
        invariant bestBlocks.None? ==> Adopt(valid, local, fetched[..i]) == local
        invariant bestBlocks.Some? ==> Adopt(valid, local, fetched[..i]) == bestBlocks.value && bestLength > |local|
        invariant bestBlocks.Some? ==> valid(bestBlocks.value)
        invariant chain.repo.blocks == local
      {
        assert fetched[..i + 1][..i] == fetched[..i];
        match fetched[i]
        case None =>
        case Some(remote) =>
          if |remote| > bestLength {
            var ok := chain.ValidateBlocks(remote);
            if ok {
              bestLength := |remote|;
              bestBlocks := Some(remote);
            }
          }
      }
      assert fetched[..|fetched|] == fetched;
      if bestBlocks.Some? {
        chain.repo.ReplaceAll(bestBlocks.value);
        return true;
      }
      replaced := false;
    }
  }

  // ---------- What the HTTP fetch delivers ----------

  /** `_fetch_chain` rebuilds each block from four fields: no Merkle root, no transactions. */
  function Stripped(blocks: BlockChain): (r: BlockChain)
    ensures |r| == |blocks|
  {
    seq(|blocks|, i requires 0 <= i < |blocks| =>
      Block(blocks[i].index, blocks[i].timestamp, blocks[i].proof, blocks[i].previousHash, Text(""), []))
  }

  /** No chain survives that: an empty root field never equals the root of an empty transaction list. */
  lemma StrippedNeverValid(prims: Primitives, ws: Option<WalletMap>, blocks: BlockChain)
    ensures !ValidChain(prims, ws, Stripped(blocks))
  {
    if blocks != [] {
      var b := Stripped(blocks)[0];
      assert Payloads(prims, b.transactions) == [];
      assert !ValidBlock(prims, ws, b);
    }
  }

  /** So over that fetch `resolve` keeps the local chain, however long and valid the peers' chains are. */
  lemma ResolveOverStrippedFetchKeepsLocal(prims: Primitives, ws: Option<WalletMap>, local: BlockChain,
                                           peers: seq<BlockChain>, fetched: seq<Option<BlockChain>>)
    requires |fetched| == |peers|
    requires forall i :: 0 <= i < |fetched| ==> fetched[i] == None || fetched[i] == Some(Stripped(peers[i]))
    ensures Adopt(Validity(prims, ws), local, fetched) == local
  {
    AdoptTakesLongest(Validity(prims, ws), local, fetched);
    forall i | 0 <= i < |fetched| && fetched[i].Some? ensures !Validity(prims, ws)(fetched[i].value) {
      StrippedNeverValid(prims, ws, peers[i]);
    }
  }

  // ---------- A network of ledgers, each validating against its own wallets ----------

  /** A node: its ledger, and the difficulty it was configured with among its primitives. */
  datatype Peer = Peer(prims: Primitives, ledger: State) {
    function Height(): nat { |ledger.chain| }

    /** The verdict of the node's validator, which reads the node's own wallets. */
    predicate Accepts(chain: BlockChain) { ValidChain(prims, Some(ledger.wallets), chain) }

    function Take(step: Step): Peer { this.(ledger := Next(prims, ledger, step).state) }

    function Resolve(fetched: seq<Option<BlockChain>>): Peer { this.(ledger := ResolveNext(prims, ledger, fetched)) }
  }

  /** A node takes a step of its own ledger, or resolves against whatever it fetched. */
  datatype NetStep =
    | LocalStep(node: nat, step: Step)
    | ResolveAt(node: nat, fetched: seq<Option<BlockChain>>)

  /** `resolve` replaces the chain and nothing else: wallets, nonces and mempool stay what they were. */
  function ResolveNext(prims: Primitives, s: State, fetched: seq<Option<BlockChain>>): State {
    s.(chain := Adopt(Validity(prims, Some(s.wallets)), s.chain, fetched))
  }

  function NetNext(nodes: seq<Peer>, step: NetStep): (r: seq<Peer>)
    ensures |r| == |nodes|
  {
    if step.node >= |nodes| then nodes
    else
      match step
      case LocalStep(n, local) => nodes[n := nodes[n].Take(local)]
      case ResolveAt(n, fetched) => nodes[n := nodes[n].Resolve(fetched)]
  }

  function NetRun(nodes: seq<Peer>, steps: seq<NetStep>): (r: seq<Peer>)
    ensures |r| == |nodes|
    decreases |steps|
  {
    if steps == [] then nodes else NetRun(NetNext(nodes, steps[0]), steps[1..])
  }

  /** The part of the ledger invariant that a chain adopted from elsewhere leaves standing. */
  ghost predicate NodeOk(prims: Primitives, s: State) {
    && "" !in s.wallets
    && TxsOk(prims, s.wallets, s.pending)
    && ValidChain(prims, Some(s.wallets), s.chain)
  }

  ghost predicate AllNodesOk(nodes: seq<Peer>) {
    forall i :: 0 <= i < |nodes| ==> NodeOk(nodes[i].prims, nodes[i].ledger)
  }

  predicate NoLower(nodes: seq<Peer>, nodes': seq<Peer>) {
    |nodes| == |nodes'| && forall i :: 0 <= i < |nodes| ==> nodes[i].Height() <= nodes'[i].Height()
  }

  /** Every reachable ledger state is such a node, its genesis block included. */
  lemma RunNodeOk(prims: Primitives, timestamp: string, steps: seq<Step>)
    ensures NodeOk(prims, Run(prims, timestamp, steps))
  {
    RunKeepsInv(prims, timestamp, steps);
    PendingOk(prims, Run(prims, timestamp, steps));
  }

  /** What a step queues, if anything: one transaction signed by a recorded key, or a mint. */
  lemma StepKeepsPending(prims: Primitives, s: State, step: Step)
    requires NodeOk(prims, s) && (step.Submit? || step.Mint?)
    ensures TxsOk(prims, s.wallets, Next(prims, s, step).state.pending)
  {
    AdmissionShape(prims, s, step);
    if Next(prims, s, step).error.None? {
      AdmittedOk(prims, s, step);
      TxsOkSnoc(prims, s.wallets, s.pending, Next(prims, s, step).state.pending[|s.pending|]);
    }
  }

  /**
   * A mined block needs no check of its own: its transactions are the mempool's, its root and links are those
   * `create_block` and the proof search gave it.
   */
  lemma MineNodeOk(prims: Primitives, s: State, step: Step)
    requires NodeOk(prims, s) && step.Mine?
    ensures NodeOk(prims, Next(prims, s, step).state)
  {
    var s' := Next(prims, s, step).state;
    if IsLeastProof(prims, step.proof, s.chain[|s.chain| - 1].proof) {
      StepGrows(prims, s, step);
      MineKeepsKeys(prims, s, step);
      TxsOkGrow(prims, s.wallets, s'.wallets, s.pending);
      PendingValid(prims, s'.wallets, s.pending);
      ValidChainGrows(prims, s.wallets, s'.wallets, s.chain);
      ExtendValid(prims, Some(s'.wallets), s.chain, s'.chain[|s.chain|]);
    }
  }

  lemma LocalStepOk(prims: Primitives, s: State, step: Step)
    requires NodeOk(prims, s)
    ensures NodeOk(prims, Next(prims, s, step).state)
    ensures |Next(prims, s, step).state.chain| >= |s.chain|
  {
    var s' := Next(prims, s, step).state;
    if step.Mine? {
      MineNodeOk(prims, s, step);
    } else {
      StepGrows(prims, s, step);
      if step.Submit? || step.Mint? { StepKeepsPending(prims, s, step); }
      TxsOkGrow(prims, s.wallets, s'.wallets, s'.pending);
      ValidChainGrows(prims, s.wallets, s'.wallets, s.chain);
    }
  }

  /**
   * Whatever steps the nodes' ledgers take and whatever they fetch, every node's chain stays valid under that node's
   * own wallets, and no height falls.
   */
  lemma {:induction false} NetworkSafe(nodes: seq<Peer>, steps: seq<NetStep>)
    requires AllNodesOk(nodes)
    ensures AllNodesOk(NetRun(nodes, steps))
    ensures NoLower(nodes, NetRun(nodes, steps))
    decreases |steps|
  {
    if steps != [] {
      var step := steps[0];
      if step.node < |nodes| {
        var prims, s := nodes[step.node].prims, nodes[step.node].ledger;
        if step.LocalStep? {
          LocalStepOk(prims, s, step.step);
        } else {
          AdoptTakesLongest(Validity(prims, Some(s.wallets)), s.chain, step.fetched);
        }
      }
      NetworkSafe(NetNext(nodes, step), steps[1..]);
    }
  }

  // ---------- The network over the fetch as it is ----------

  predicate AllStripped(fetched: seq<Option<BlockChain>>) {
    forall q :: 0 <= q < |fetched| && fetched[q].Some? ==> fetched[q].value == Stripped(fetched[q].value)
  }

  /** The ledger steps node `i` took. */
  function OwnSteps(steps: seq<NetStep>, i: nat): seq<Step> {
    if steps == [] then []
    else if steps[0].LocalStep? && steps[0].node == i then [steps[0].step] + OwnSteps(steps[1..], i)
    else OwnSteps(steps[1..], i)
  }

  /** The ledger after further steps. */
  function Replay(prims: Primitives, s: State, steps: seq<Step>): State
    decreases |steps|
  {
    if steps == [] then s else Replay(prims, Next(prims, s, steps[0]).state, steps[1..])
  }

  lemma StrippedResolveKeeps(prims: Primitives, s: State, fetched: seq<Option<BlockChain>>)
    requires AllStripped(fetched)
    ensures ResolveNext(prims, s, fetched) == s
  {
    var peers := seq(|fetched|, q requires 0 <= q < |fetched| =>
      match fetched[q] case Some(c) => c case None => []);
    ResolveOverStrippedFetchKeepsLocal(prims, Some(s.wallets), s.chain, peers, fetched);
  }

  /** Over the fetch as it is, the nodes never influence one another: each ends where its own steps take it. */
  lemma {:induction false} StrippedNetworkIsolates(nodes: seq<Peer>, steps: seq<NetStep>, i: nat)
    requires i < |nodes|
    requires forall k :: 0 <= k < |steps| && steps[k].ResolveAt? ==> AllStripped(steps[k].fetched)
    ensures NetRun(nodes, steps)[i] == nodes[i].(ledger := Replay(nodes[i].prims, nodes[i].ledger, OwnSteps(steps, i)))
    decreases |steps|
  {
    if steps != [] {
      var step := steps[0];
      if step.ResolveAt? && step.node < |nodes| {
        StrippedResolveKeeps(nodes[step.node].prims, nodes[step.node].ledger, step.fetched);
      }
      var nodes' := NetNext(nodes, step);
      StrippedNetworkIsolates(nodes', steps[1..], i);
      if step.LocalStep? && step.node == i {
        var own := OwnSteps(steps, i);
        assert own[0] == step.step && own[1..] == OwnSteps(steps[1..], i);
      }
    }
  }

  // ---------- Rounds without mining, over a transport that delivers chains whole ----------

  /** Whom each node knows. */
  type Topology = seq<seq<nat>>

  predicate WellFormedPeers(peers: Topology, n: nat) {
    |peers| == n && forall i, q :: 0 <= i < n && 0 <= q < |peers[i]| ==> peers[i][q] < n
  }

  /** Each node's validator, reading its own wallets, accepts each node's chain. */
  predicate MutuallyAccepted(nodes: seq<Peer>) {
    forall i, j :: 0 <= i < |nodes| && 0 <= j < |nodes| ==> nodes[i].Accepts(nodes[j].ledger.chain)
  }

  /** That is so among equally configured nodes with the same wallets, up to balances, owners and freezing. */
  lemma SharedWalletsAccepted(nodes: seq<Peer>)
    requires AllNodesOk(nodes)
    requires forall i, j :: 0 <= i < |nodes| && 0 <= j < |nodes| ==>
      nodes[j].prims == nodes[i].prims && Grows(nodes[j].ledger.wallets, nodes[i].ledger.wallets)
    ensures MutuallyAccepted(nodes)
  {
    forall i, j | 0 <= i < |nodes| && 0 <= j < |nodes|
      ensures nodes[i].Accepts(nodes[j].ledger.chain)
    {
      assert NodeOk(nodes[j].prims, nodes[j].ledger);
      assert Grows(nodes[j].ledger.wallets, nodes[i].ledger.wallets);
      ValidChainGrows(nodes[i].prims, nodes[j].ledger.wallets, nodes[i].ledger.wallets, nodes[j].ledger.chain);
    }
  }

  function FetchAll(nodes: seq<Peer>, from: seq<nat>): (r: seq<Option<BlockChain>>)
    requires forall q :: 0 <= q < |from| ==> from[q] < |nodes|
    ensures |r| == |from| && forall q :: 0 <= q < |from| ==> r[q] == Some(nodes[from[q]].ledger.chain)
  {
    seq(|from|, q requires 0 <= q < |from| => Some(nodes[from[q]].ledger.chain))
  }

  /** Node `i` resolves against its peers' chains of this moment. */
  function ResolveWithPeers(peers: Topology, nodes: seq<Peer>, i: nat): (r: seq<Peer>)
    requires WellFormedPeers(peers, |nodes|) && i < |nodes|
    ensures |r| == |nodes|
  {
    nodes[i := nodes[i].Resolve(FetchAll(nodes, peers[i]))]
  }

  /** The nodes named in `order` resolve one after the other. */
  function Round(peers: Topology, nodes: seq<Peer>, order: seq<nat>): (r: seq<Peer>)
    requires WellFormedPeers(peers, |nodes|) && forall k :: 0 <= k < |order| ==> order[k] < |nodes|
    ensures |r| == |nodes|
    decreases |order|
  {
    if order == [] then nodes else Round(peers, ResolveWithPeers(peers, nodes, order[0]), order[1..])
  }

  /** No chain exceeds a bound that all started within. */
  predicate Bounded(nodes: seq<Peer>, h: nat) {
    forall i :: 0 <= i < |nodes| ==> nodes[i].Height() <= h
  }

  /** Resolving among mutually accepted chains hands chains on and never shortens one. */
  ghost predicate Spreading(nodes: seq<Peer>, nodes': seq<Peer>, h: nat) {
    MutuallyAccepted(nodes') && NoLower(nodes, nodes') && Bounded(nodes', h)
  }

  lemma ResolveOne(peers: Topology, nodes: seq<Peer>, i: nat, h: nat)
    requires WellFormedPeers(peers, |nodes|) && i < |nodes| && MutuallyAccepted(nodes) && Bounded(nodes, h)
    ensures var nodes' := ResolveWithPeers(peers, nodes, i);
            && Spreading(nodes, nodes', h)
            && forall q :: 0 <= q < |peers[i]| ==> nodes'[i].Height() >= nodes[peers[i][q]].Height()
  {
    var fetched := FetchAll(nodes, peers[i]);
    var valid := Validity(nodes[i].prims, Some(nodes[i].ledger.wallets));
    AdoptTakesLongest(valid, nodes[i].ledger.chain, fetched);
    var best := Adopt(valid, nodes[i].ledger.chain, fetched);
    forall q | 0 <= q < |peers[i]| ensures |best| >= nodes[peers[i][q]].Height() {
      assert fetched[q] == Some(nodes[peers[i][q]].ledger.chain);
      assert valid(fetched[q].value);
    }
    if best != nodes[i].ledger.chain {
      var q :| 0 <= q < |fetched| && fetched[q] == Some(best);
      assert best == nodes[peers[i][q]].ledger.chain;
      HandedOn(nodes, i, peers[i][q]);
    }
  }

  /** One node taking over another's chain. */
  lemma HandedOn(nodes: seq<Peer>, i: nat, j: nat)
    requires MutuallyAccepted(nodes) && i < |nodes| && j < |nodes|
    ensures MutuallyAccepted(nodes[i := nodes[i].(ledger := nodes[i].ledger.(chain := nodes[j].ledger.chain))])
  {
    var nodes' := nodes[i := nodes[i].(ledger := nodes[i].ledger.(chain := nodes[j].ledger.chain))];
    forall m, n | 0 <= m < |nodes'| && 0 <= n < |nodes'|
      ensures nodes'[m].Accepts(nodes'[n].ledger.chain)
    {
      assert nodes[m].Accepts(nodes[n].ledger.chain);
      assert nodes[m].Accepts(nodes[j].ledger.chain);
    }
  }

  /** After a round every node that took its turn is as high as each of its peers was at the start. */
  lemma {:induction false} RoundRaises(peers: Topology, nodes: seq<Peer>, order: seq<nat>, h: nat)
    requires WellFormedPeers(peers, |nodes|) && forall k :: 0 <= k < |order| ==> order[k] < |nodes|
    requires MutuallyAccepted(nodes) && Bounded(nodes, h)
    ensures var nodes' := Round(peers, nodes, order);
            && Spreading(nodes, nodes', h)
            && forall i, q :: i in order && 0 <= q < |peers[i]| ==> nodes'[i].Height() >= nodes[peers[i][q]].Height()
    decreases |order|
  {
    if order != [] {
      var i := order[0];
      var mid := ResolveWithPeers(peers, nodes, i);
      ResolveOne(peers, nodes, i, h);
      RoundRaises(peers, mid, order[1..], h);
      var last := Round(peers, nodes, order);
      assert last == Round(peers, mid, order[1..]);
      forall n, q | n in order && 0 <= q < |peers[n]| ensures last[n].Height() >= nodes[peers[n][q]].Height() {
        if n == i {
          assert last[i].Height() >= mid[i].Height();
        } else {
          assert n in order[1..];
          assert mid[peers[n][q]].Height() >= nodes[peers[n][q]].Height();
        }
      }
    }
  }

  predicate CompleteRound(order: seq<nat>, n: nat) {
    && (forall k :: 0 <= k < |order| ==> order[k] < n)
    && (forall i :: 0 <= i < n ==> i in order)
  }

  predicate CompleteRounds(orders: seq<seq<nat>>, n: nat) {
    forall k :: 0 <= k < |orders| ==> CompleteRound(orders[k], n)
  }

  function Rounds(peers: Topology, nodes: seq<Peer>, orders: seq<seq<nat>>): (r: seq<Peer>)
    requires WellFormedPeers(peers, |nodes|) && CompleteRounds(orders, |nodes|)
    ensures |r| == |nodes|
  {
    if orders == [] then nodes
    else
      assert CompleteRound(orders[|orders| - 1], |nodes|);
      Round(peers, Rounds(peers, nodes, orders[..|orders| - 1]), orders[|orders| - 1])
  }

  /** Node `j` is at most `k` peer hops from node `i`. */
  ghost predicate Within(peers: Topology, i: nat, j: nat, k: nat)
    requires WellFormedPeers(peers, |peers|) && i < |peers|
    decreases k
  {
    i == j || (k > 0 && exists q :: 0 <= q < |peers[i]| && Within(peers, peers[i][q], j, k - 1))
  }

  lemma {:induction false} RoundsSafe(peers: Topology, nodes: seq<Peer>, orders: seq<seq<nat>>, h: nat)
    requires WellFormedPeers(peers, |nodes|) && CompleteRounds(orders, |nodes|)
    requires MutuallyAccepted(nodes) && Bounded(nodes, h)
    ensures Spreading(nodes, Rounds(peers, nodes, orders), h)
  {
    if orders != [] {
      var front := orders[..|orders| - 1];
      RoundsSafe(peers, nodes, front, h);
      assert CompleteRound(orders[|orders| - 1], |nodes|);
      RoundRaises(peers, Rounds(peers, nodes, front), orders[|orders| - 1], h);
    }
  }

  /** One more complete round: as high as any one peer was. */
  lemma RoundLifts(peers: Topology, nodes: seq<Peer>, order: seq<nat>, i: nat, q: nat, h: nat)
    requires WellFormedPeers(peers, |nodes|) && CompleteRound(order, |nodes|)
    requires MutuallyAccepted(nodes) && Bounded(nodes, h) && i < |nodes| && q < |peers[i]|
    ensures Round(peers, nodes, order)[i].Height() >= nodes[peers[i][q]].Height()
  {
    RoundRaises(peers, nodes, order, h);
    assert i in order;
  }

  /** After k complete rounds a node is at least as high as every node within k hops was at the start. */
  lemma {:induction false} HeightsSpread(peers: Topology, nodes: seq<Peer>, orders: seq<seq<nat>>,
                                         i: nat, j: nat)
    requires WellFormedPeers(peers, |nodes|) && CompleteRounds(orders, |nodes|)
    requires MutuallyAccepted(nodes) && i < |nodes| && j < |nodes| && Within(peers, i, j, |orders|)
    ensures Rounds(peers, nodes, orders)[i].Height() >= nodes[j].Height()
    decreases |orders|
  {
    var h := MaxHeight(nodes);
    if i == j {
      RoundsSafe(peers, nodes, orders, h);
    } else {
      var q :| 0 <= q < |peers[i]| && Within(peers, peers[i][q], j, |orders| - 1);
      var front := orders[..|orders| - 1];
      HeightsSpread(peers, nodes, front, peers[i][q], j);
      RoundsSafe(peers, nodes, front, h);
      assert CompleteRound(orders[|orders| - 1], |nodes|);
      RoundLifts(peers, Rounds(peers, nodes, front), orders[|orders| - 1], i, q, h);
    }
  }

  function MaxHeight(nodes: seq<Peer>): (h: nat)
    ensures Bounded(nodes, h)
    ensures nodes != [] ==> exists i :: 0 <= i < |nodes| && nodes[i].Height() == h
  {
    if nodes == [] then 0
    else
      var rest := MaxHeight(nodes[1..]);
      assert forall i :: 1 <= i < |nodes| ==> nodes[i] == nodes[1..][i - 1];
      if nodes[0].Height() >= rest then
        assert nodes[0].Height() == nodes[0].Height();
        nodes[0].Height()
      else
        assert exists i :: 0 <= i < |nodes[1..]| && nodes[1..][i].Height() == rest && nodes[1..][i] == nodes[i + 1];
        rest
  }

  /** Where every node is within k hops of every other, k rounds bring all to the greatest original height. */
  lemma NetworkConverges(peers: Topology, nodes: seq<Peer>, orders: seq<seq<nat>>)
    requires WellFormedPeers(peers, |nodes|) && CompleteRounds(orders, |nodes|) && MutuallyAccepted(nodes)
    requires forall i, j :: 0 <= i < |nodes| && 0 <= j < |nodes| ==> Within(peers, i, j, |orders|)
    ensures var last := Rounds(peers, nodes, orders);
            MutuallyAccepted(last) && forall i :: 0 <= i < |last| ==> last[i].Height() == MaxHeight(nodes)
  {
    var h := MaxHeight(nodes);
    RoundsSafe(peers, nodes, orders, h);
    var last := Rounds(peers, nodes, orders);
    forall i | 0 <= i < |last| ensures last[i].Height() == h {
      var j :| 0 <= j < |nodes| && nodes[j].Height() == h;
      HeightsSpread(peers, nodes, orders, i, j);
    }
  }

  // ---------- Strongly connected networks ----------

  lemma {:induction false} WithinMonotone(peers: Topology, i: nat, j: nat, k: nat, more: nat)
    requires WellFormedPeers(peers, |peers|) && i < |peers| && Within(peers, i, j, k) && k <= more
    ensures Within(peers, i, j, more)
    decreases k
  {
    if i != j {
      var q :| 0 <= q < |peers[i]| && Within(peers, peers[i][q], j, k - 1);
      WithinMonotone(peers, peers[i][q], j, k - 1, more - 1);
    }
  }

  /** Every node is reached from every other over some number of peer hops. */
  ghost predicate StronglyConnected(peers: Topology)
    requires WellFormedPeers(peers, |peers|)
  {
    forall i, j :: 0 <= i < |peers| && 0 <= j < |peers| ==> Reaches(peers, i, j)
  }

  ghost predicate Reaches(peers: Topology, i: nat, j: nat)
    requires WellFormedPeers(peers, |peers|) && i < |peers|
  {
    exists k: nat :: Within(peers, i, j, k)
  }

  /** The nodes that reach `j` within `k` hops. */
  ghost function Ball(peers: Topology, j: nat, k: nat): set<nat>
    requires WellFormedPeers(peers, |peers|)
  {
    set i: nat | i < |peers| && Within(peers, i, j, k)
  }

  lemma BallGrows(peers: Topology, j: nat, k: nat)
    requires WellFormedPeers(peers, |peers|)
    ensures Ball(peers, j, k) <= Ball(peers, j, k + 1)
  {
    var ball, larger := Ball(peers, j, k), Ball(peers, j, k + 1);
    forall i | i in ball ensures i in larger { WithinMonotone(peers, i, j, k, k + 1); }
  }

  /** A ball is determined by the one before: one that did not grow never grows again. */
  lemma BallStops(peers: Topology, j: nat, k: nat)
    requires WellFormedPeers(peers, |peers|) && Ball(peers, j, k) == Ball(peers, j, k + 1)
    ensures Ball(peers, j, k + 1) == Ball(peers, j, k + 2)
  {
    BallGrows(peers, j, k + 1);
    var larger, ball := Ball(peers, j, k + 2), Ball(peers, j, k + 1);
    forall i | i in larger ensures i in ball {
      if i != j {
        var q :| 0 <= q < |peers[i]| && Within(peers, peers[i][q], j, k + 1);
        assert peers[i][q] in Ball(peers, j, k);
      }
    }
  }

  lemma {:induction false} BallStopped(peers: Topology, j: nat, k: nat, m: nat)
    requires WellFormedPeers(peers, |peers|) && Ball(peers, j, k) == Ball(peers, j, k + 1) && k <= m
    ensures Ball(peers, j, m) == Ball(peers, j, k) && Ball(peers, j, m + 1) == Ball(peers, j, k)
  {
    if m != k {
      BallStopped(peers, j, k, m - 1);
      BallStops(peers, j, m - 1);
    }
  }

  lemma ProperSubsetSmaller(a: set<nat>, b: set<nat>)
    requires a <= b && a != b
    ensures |a| < |b|
  {
    var x :| x in b && x !in a;
    assert a <= b - {x};
    SubsetNotLarger(a, b - {x});
  }

  lemma {:induction false} SubsetNotLarger(a: set<nat>, b: set<nat>)
    requires a <= b
    ensures |a| <= |b|
  {
    if a != {} {
      var x :| x in a;
      SubsetNotLarger(a - {x}, b - {x});
    }
  }

  /** A ball that still grows has gained a node at each hop. */
  lemma {:induction false} BallSize(peers: Topology, j: nat, k: nat)
    requires WellFormedPeers(peers, |peers|) && j < |peers|
    ensures |Ball(peers, j, k)| >= k + 1 || Ball(peers, j, k) == Ball(peers, j, k + 1)
  {
    if k == 0 {
      assert Ball(peers, j, 0) == {j};
    } else {
      BallSize(peers, j, k - 1);
      BallGrows(peers, j, k - 1);
      if Ball(peers, j, k - 1) == Ball(peers, j, k) {
        BallStops(peers, j, k - 1);
      } else {
        ProperSubsetSmaller(Ball(peers, j, k - 1), Ball(peers, j, k));
      }
    }
  }

  lemma {:induction false} AllBelow(n: nat) returns (all: set<nat>)
    ensures |all| == n && forall i: nat :: i in all <==> i < n
  {
    all := {};
    if n != 0 {
      all := AllBelow(n - 1);
      all := all + {n - 1};
    }
  }

  /** Whatever is reachable at all is reached within one hop fewer than there are nodes. */
  lemma ReachedWithinNodes(peers: Topology, i: nat, j: nat)
    requires WellFormedPeers(peers, |peers|) && i < |peers| && j < |peers|
    ensures Reaches(peers, i, j) <==> Within(peers, i, j, |peers| - 1)
  {
    var n := |peers| - 1;
    if Reaches(peers, i, j) {
      var k: nat :| Within(peers, i, j, k);
      BallSize(peers, j, n);
      if Ball(peers, j, n) == Ball(peers, j, n + 1) {
        var m := if k <= n then n else k;
        WithinMonotone(peers, i, j, k, m);
        BallStopped(peers, j, n, m);
        assert i in Ball(peers, j, m);
      } else {
        var all := AllBelow(|peers|);
        assert Ball(peers, j, n) <= all;
        if Ball(peers, j, n) != all { ProperSubsetSmaller(Ball(peers, j, n), all); }
        assert i in Ball(peers, j, n);
      }
    }
  }

  /**
   * A strongly connected network of n nodes that accept each other's chains reaches one common height, the greatest,
   * in at most n - 1 rounds, and stays there.
   */
  lemma StronglyConnectedConverges(peers: Topology, nodes: seq<Peer>, orders: seq<seq<nat>>)
    requires WellFormedPeers(peers, |nodes|) && StronglyConnected(peers) && MutuallyAccepted(nodes)
    requires CompleteRounds(orders, |nodes|) && |orders| + 1 >= |nodes|
    ensures var last := Rounds(peers, nodes, orders);
            MutuallyAccepted(last) && forall i :: 0 <= i < |last| ==> last[i].Height() == MaxHeight(nodes)
  {
    forall i, j | 0 <= i < |nodes| && 0 <= j < |nodes| ensures Within(peers, i, j, |orders|) {
      assert Reaches(peers, i, j);
      ReachedWithinNodes(peers, i, j);
      WithinMonotone(peers, i, j, |peers| - 1, |orders|);
    }
    NetworkConverges(peers, nodes, orders);
  }
}
