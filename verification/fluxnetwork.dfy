/** The flux network builder: the directed bipartite graph of allow-listed
    metabolites and selected reactions that is handed to the renderer, with
    reaction nodes sized and edges weighted by the magnitude of the
    reaction's flux relative to the largest one. */
module FluxNetwork {
  import opened Results
  import opened Cobra
  import opened Selection
  import opened Text

  /** A graph node's attributes. `Bare` is a node the graph library creates
      on its own, without attributes, for an edge endpoint it has not seen. */
  datatype Node =
    | MetNode(caption: string, color: string, size: real)
    | RxnNode(caption: string, color: string, size: real)
    | Bare

  /** An edge's attributes: its drawn weight and the flux shown as its title. */
  datatype Edge = Edge(weight: real, flux: real)

  /** A directed graph with at most one edge per ordered pair of nodes:
      adding a node or edge that exists replaces its attributes. */
  datatype Graph = Graph(nodes: map<string, Node>, edges: map<(string, string), Edge>)

  /** The caller's colour choices for the two kinds of node. */
  datatype Style = Style(metColor: string, rxnColor: string)

  const MetNodeSize: real := 20.0

  function AddNode(g: Graph, id: string, n: Node): Graph {
    g.(nodes := g.nodes[id := n])
  }

  /** Adding an edge creates either endpoint that is missing as a bare node
      and leaves existing nodes as they are. */
  function AddEdge(g: Graph, key: (string, string), e: Edge): (r: Graph)
    ensures r.nodes.Keys == g.nodes.Keys + {key.0, key.1}
    ensures forall k :: k in g.nodes ==> r.nodes[k] == g.nodes[k]
    ensures forall k :: k in r.nodes && k !in g.nodes ==> r.nodes[k] == Bare
    ensures r.edges == g.edges[key := e]
  {
    var withSrc := if key.0 in g.nodes then g.nodes else g.nodes[key.0 := Bare];
    var withTgt := if key.1 in withSrc then withSrc else withSrc[key.1 := Bare];
    Graph(withTgt, g.edges[key := e])
  }

  /** Adds a metabolite node, labelled by the model's display name, for each
      identifier of `ids` the model knows; identifiers it does not know are
      skipped. */
  function AddMetaboliteNodes(g: Graph, ids: seq<string>, mets: map<string, Metabolite>, color: string): (r: Graph)
    ensures r.edges == g.edges
    ensures forall k :: k in r.nodes <==> k in g.nodes || (k in ids && k in mets)
    ensures forall k :: k in ids && k in mets ==> r.nodes[k] == MetNode(mets[k].name, color, MetNodeSize)
    ensures forall k :: k in g.nodes && !(k in ids && k in mets) ==> r.nodes[k] == g.nodes[k]
    decreases |ids|
  {
    if |ids| == 0 then g
    else
      var g1 := if ids[0] in mets then AddNode(g, ids[0], MetNode(mets[ids[0]].name, color, MetNodeSize)) else g;
      assert forall k :: k in ids <==> k == ids[0] || k in ids[1..];
      AddMetaboliteNodes(g1, ids[1..], mets, color)
  }

  /** `solution.fluxes.get(id, 0.0)`. */
  function FluxOr0(sol: Fluxes, id: string): (f: real)
    ensures id in sol ==> f == sol[id]
    ensures id !in sol ==> f == 0.0
  {
    if id in sol then sol[id] else 0.0
  }

  function Abs(x: real): (a: real)
    ensures a >= 0.0 && (a == x || a == -x)
  {
    if x < 0.0 then -x else x
  }

  /** The largest absolute flux among the reactions, a missing flux counting
      as zero. */
  function PeakAbsFlux(rxns: seq<Reaction>, sol: Fluxes): (p: real)
    requires |rxns| > 0
    ensures forall x :: x in rxns ==> Abs(FluxOr0(sol, x.id)) <= p
    ensures exists x :: x in rxns && Abs(FluxOr0(sol, x.id)) == p
  {
    var a := Abs(FluxOr0(sol, rxns[0].id));
    if |rxns| == 1 then a
    else
      var rest := PeakAbsFlux(rxns[1..], sol);
      assert forall x :: x in rxns <==> x == rxns[0] || x in rxns[1..];
      if a >= rest then a else rest
  }

  /** `max(abs(flux) for each reaction) or 1.0`: the normaliser for node
      sizes and edge weights. `max` of nothing raises; a zero maximum is
      replaced by 1.0. */
  function MaxFlux(rxns: seq<Reaction>, sol: Fluxes): (r: Result<real>)
    ensures r.Failure? <==> |rxns| == 0
    ensures r.Failure? ==> r.error == EmptyMax
    ensures r.Success? ==> r.value > 0.0 && forall x :: x in rxns ==> Abs(FluxOr0(sol, x.id)) <= r.value
    ensures r.Success? && (forall x :: x in rxns ==> FluxOr0(sol, x.id) == 0.0) ==> r.value == 1.0
    ensures r.Success? && (exists x :: x in rxns && FluxOr0(sol, x.id) != 0.0) ==>
      exists x :: x in rxns && Abs(FluxOr0(sol, x.id)) == r.value
  {
    if |rxns| == 0 then Failure(EmptyMax)
    else
      var peak := PeakAbsFlux(rxns, sol);
      Success(if peak == 0.0 then 1.0 else peak)
  }

  /** Reaction node size: 10 for no flux up to 50 for the largest. */
  function ScaledSize(absFlux: real, maxFlux: real): (size: real)
    requires maxFlux > 0.0
    ensures size == 10.0 <==> absFlux == 0.0
    ensures absFlux == maxFlux ==> size == 50.0
  {
    assert absFlux == maxFlux ==> absFlux / maxFlux == 1.0;
    absFlux / maxFlux * 40.0 + 10.0
  }

  /** Edge weight: 1 for no flux up to 41 for the largest. */
  function ScaledWeight(absFlux: real, maxFlux: real): (weight: real)
    requires maxFlux > 0.0
    ensures weight == 1.0 <==> absFlux == 0.0
    ensures absFlux == maxFlux ==> weight == 41.0
  {
    assert absFlux == maxFlux ==> absFlux / maxFlux == 1.0;
    absFlux / maxFlux * 40.0 + 1.0
  }

  /** A reaction node's label: its gene identifiers joined by commas, or its
      own identifier when that join is empty. */
  function NodeLabel(r: Reaction): (caption: string)
    ensures |r.genes| == 0 ==> caption == r.id
    ensures |r.genes| > 1 ==> caption == Join(r.genes, ",")
    ensures |r.genes| == 1 ==> caption == if r.genes[0] == "" then r.id else r.genes[0]
  {
    JoinEmptyIff(r.genes, ",");
    var joined := Join(r.genes, ",");
    if joined == "" then r.id else joined
  }

  /** The orientation of the edge for one entry: metabolite to reaction when
      consumed (negative coefficient), reaction to metabolite otherwise,
      a zero coefficient included. */
  function EdgeKey(rid: string, e: Entry): (k: (string, string))
    ensures {k.0, k.1} == {rid, e.0.id}
    ensures e.1 < 0.0 ==> k.1 == rid
    ensures e.1 >= 0.0 ==> k.0 == rid
  {
    if e.1 < 0.0 then (e.0.id, rid) else (rid, e.0.id)
  }

  function RxnNodeOf(r: Reaction, sol: Fluxes, maxFlux: real, color: string): Node
    requires maxFlux > 0.0
  {
    RxnNode(NodeLabel(r), color, ScaledSize(Abs(FluxOr0(sol, r.id)), maxFlux))
  }

  function EdgeOf(rid: string, sol: Fluxes, maxFlux: real): Edge
    requires maxFlux > 0.0
  {
    Edge(ScaledWeight(Abs(FluxOr0(sol, rid)), maxFlux), FluxOr0(sol, rid))
  }

  /** The allow-listed metabolite identifiers among the entries. */
  function KeptIdsOf(keep: seq<string>, es: seq<Entry>): set<string> {
    if |es| == 0 then {}
    else (if es[0].0.id in keep then {es[0].0.id} else {}) + KeptIdsOf(keep, es[1..])
  }

  /** The edges a reaction contributes: one per allow-listed entry. */
  function EdgeKeysOf(keep: seq<string>, rid: string, es: seq<Entry>): set<(string, string)> {
    if |es| == 0 then {}
    else (if es[0].0.id in keep then {EdgeKey(rid, es[0])} else {}) + EdgeKeysOf(keep, rid, es[1..])
  }

  /** Adds the edges between a reaction and its allow-listed metabolites,
      all carrying the same attributes `e`; other metabolites get no edge. */
  function AddReactionEdges(keep: seq<string>, g: Graph, rid: string, es: seq<Entry>, e: Edge): (r: Graph)
    requires rid in g.nodes
    ensures r.nodes.Keys == g.nodes.Keys + KeptIdsOf(keep, es)
    ensures forall k :: k in g.nodes ==> r.nodes[k] == g.nodes[k]
    ensures forall k :: k in r.nodes && k !in g.nodes ==> r.nodes[k] == Bare
    ensures r.edges.Keys == g.edges.Keys + EdgeKeysOf(keep, rid, es)
    ensures forall k :: k in EdgeKeysOf(keep, rid, es) ==> r.edges[k] == e
    ensures forall k :: k in g.edges && k !in EdgeKeysOf(keep, rid, es) ==> r.edges[k] == g.edges[k]
    decreases |es|
  {
    if |es| == 0 then g
    else
      var g1 := if es[0].0.id in keep then AddEdge(g, EdgeKey(rid, es[0]), e) else g;
      AddReactionEdges(keep, g1, rid, es[1..], e)
  }

  /** Adds one reaction: its node, sized by its flux, then its edges,
      weighted by its flux. */
  function AddReaction(keep: seq<string>, g: Graph, x: Reaction, sol: Fluxes, maxFlux: real, color: string): (r: Graph)
    requires maxFlux > 0.0
    ensures r.nodes.Keys == g.nodes.Keys + {x.id} + KeptIdsOf(keep, x.mets)
    ensures r.nodes[x.id] == RxnNodeOf(x, sol, maxFlux, color)
    ensures forall k :: k in g.nodes && k != x.id ==> r.nodes[k] == g.nodes[k]
    ensures forall k :: k in r.nodes && k !in g.nodes && k != x.id ==> r.nodes[k] == Bare
    ensures r.edges.Keys == g.edges.Keys + EdgeKeysOf(keep, x.id, x.mets)
    ensures forall k :: k in EdgeKeysOf(keep, x.id, x.mets) ==> r.edges[k] == EdgeOf(x.id, sol, maxFlux)
    ensures forall k :: k in g.edges && k !in EdgeKeysOf(keep, x.id, x.mets) ==> r.edges[k] == g.edges[k]
  {
    var g1 := AddNode(g, x.id, RxnNodeOf(x, sol, maxFlux, color));
    AddReactionEdges(keep, g1, x.id, x.mets, EdgeOf(x.id, sol, maxFlux))
  }

  /** The identifiers of the reactions. */
  function RxnIds(rxns: seq<Reaction>): set<string> {
    if |rxns| == 0 then {} else {rxns[0].id} + RxnIds(rxns[1..])
  }

  /** The allow-listed metabolite identifiers the reactions involve. */
  function KeptRefs(keep: seq<string>, rxns: seq<Reaction>): set<string> {
    if |rxns| == 0 then {} else KeptIdsOf(keep, rxns[0].mets) + KeptRefs(keep, rxns[1..])
  }

  /** All edges the reactions contribute. */
  function EdgeKeys(keep: seq<string>, rxns: seq<Reaction>): set<(string, string)> {
    if |rxns| == 0 then {} else EdgeKeysOf(keep, rxns[0].id, rxns[0].mets) + EdgeKeys(keep, rxns[1..])
  }

  /** Adds the reactions in order; a node or edge added again later takes
      the later attributes. */
  function AddReactions(keep: seq<string>, g: Graph, rxns: seq<Reaction>, sol: Fluxes, maxFlux: real, color: string): (r: Graph)
    requires maxFlux > 0.0
    ensures r.nodes.Keys == g.nodes.Keys + RxnIds(rxns) + KeptRefs(keep, rxns)
    ensures r.edges.Keys == g.edges.Keys + EdgeKeys(keep, rxns)
    ensures forall k :: k in g.nodes && k !in RxnIds(rxns) ==> r.nodes[k] == g.nodes[k]
    ensures forall k :: k in r.nodes && k !in g.nodes && k !in RxnIds(rxns) ==> r.nodes[k] == Bare
    ensures forall x :: x in rxns ==> x.id in r.nodes && r.nodes[x.id].RxnNode?
    decreases |rxns|
  {
    if |rxns| == 0 then g
    else
      var g1 := AddReaction(keep, g, rxns[0], sol, maxFlux, color);
      var r := AddReactions(keep, g1, rxns[1..], sol, maxFlux, color);
      assert forall x :: x in rxns <==> x == rxns[0] || x in rxns[1..];
      RxnIdsIff(rxns[1..]);
      r
  }

  /** The graph after its first stage: one metabolite node per allow-listed
      identifier the model knows, and no edges. */
  function MetaboliteLayer(keep: seq<string>, m: Model, style: Style): (g: Graph)
    ensures g.edges == map[]
    ensures forall k :: k in g.nodes <==> k in keep && k in m.metabolites
    ensures forall k :: k in g.nodes ==> g.nodes[k] == MetNode(m.metabolites[k].name, style.metColor, MetNodeSize)
  {
    AddMetaboliteNodes(Graph(map[], map[]), keep, m.metabolites, style.metColor)
  }

  /** The graph part of `visualise_flux_network` for a given allow-list:
      metabolite nodes for the allow-list, then every selected reaction with
      its edges. With no reaction selected, `max` of nothing raises. */
  function BuildFluxNetwork(keep: seq<string>, m: Model, sol: Fluxes, style: Style): (r: Result<Graph>)
    ensures r.Failure? <==> forall x :: x in m.reactions ==> !Touches(keep, x)
    ensures r.Failure? ==> r.error == EmptyMax
  {
    var sel := SelectReactions(keep, m.reactions);
    SelectionEmptyIff(keep, m.reactions);
    var peak := MaxFlux(sel, sol);
    if peak.Failure? then Failure(peak.error)
    else Success(AddReactions(keep, MetaboliteLayer(keep, m, style), sel, sol, peak.value, style.rxnColor))
  }

  /** The graph part of `visualise_flux_network` with its hard-coded
      allow-list. */
  function VisualiseFluxNetwork(m: Model, sol: Fluxes, style: Style): (r: Result<Graph>)
    ensures r.Failure? <==> forall x :: x in m.reactions ==> !Touches(KeepMetabolites, x)
  {
    BuildFluxNetwork(KeepMetabolites, m, sol, style)
  }

  /** An identifier is among the entries' allow-listed ones exactly when it
      is allow-listed and some entry has it. */
  lemma {:induction false} KeptIdsOfIff(keep: seq<string>, es: seq<Entry>)
    ensures forall k :: k in KeptIdsOf(keep, es) <==> k in keep && exists j :: 0 <= j < |es| && es[j].0.id == k
  {
    if |es| > 0 {
      KeptIdsOfIff(keep, es[1..]);
      assert forall j :: 0 < j < |es| ==> es[j] == es[1..][j - 1];
    }
  }

  /** A reaction contributes exactly one edge per allow-listed entry,
      oriented by that entry's coefficient. */
  lemma {:induction false} EdgeKeysOfIff(keep: seq<string>, rid: string, es: seq<Entry>)
    ensures forall k :: k in EdgeKeysOf(keep, rid, es) <==>
      exists j :: 0 <= j < |es| && es[j].0.id in keep && k == EdgeKey(rid, es[j])
  {
    if |es| > 0 {
      EdgeKeysOfIff(keep, rid, es[1..]);
      assert forall j :: 0 < j < |es| ==> es[j] == es[1..][j - 1];
    }
  }

  lemma {:induction false} RxnIdsIff(rxns: seq<Reaction>)
    ensures forall k :: k in RxnIds(rxns) <==> exists x :: x in rxns && x.id == k
  {
    if |rxns| > 0 {
      RxnIdsIff(rxns[1..]);
      assert forall x :: x in rxns <==> x == rxns[0] || x in rxns[1..];
    }
  }

  lemma {:induction false} KeptRefsIff(keep: seq<string>, rxns: seq<Reaction>)
    ensures forall k :: k in KeptRefs(keep, rxns) <==> exists x :: x in rxns && k in KeptIdsOf(keep, x.mets)
  {
    if |rxns| > 0 {
      KeptRefsIff(keep, rxns[1..]);
      assert forall x :: x in rxns <==> x == rxns[0] || x in rxns[1..];
    }
  }

  lemma {:induction false} EdgeKeysIff(keep: seq<string>, rxns: seq<Reaction>)
    ensures forall k :: k in EdgeKeys(keep, rxns) <==> exists x :: x in rxns && k in EdgeKeysOf(keep, x.id, x.mets)
  {
    if |rxns| > 0 {
      EdgeKeysIff(keep, rxns[1..]);
      assert forall x :: x in rxns <==> x == rxns[0] || x in rxns[1..];
    }
  }

  /** An identifier is among the reactions' allow-listed metabolites exactly
      when it is allow-listed and some entry of some reaction has it. */
  lemma KeptRefsEntries(keep: seq<string>, rxns: seq<Reaction>)
    ensures forall k :: k in KeptRefs(keep, rxns) <==>
      k in keep && exists x, j :: x in rxns && 0 <= j < |x.mets| && x.mets[j].0.id == k
  {
    KeptRefsIff(keep, rxns);
    forall x | x in rxns
      ensures forall k :: k in KeptIdsOf(keep, x.mets) <==> k in keep && exists j :: 0 <= j < |x.mets| && x.mets[j].0.id == k
    {
      KeptIdsOfIff(keep, x.mets);
    }
  }

  /** With reactions identified by their identifiers, every added reaction's
      node carries that reaction's label, colour and size. */
  lemma {:induction false} AddReactionsRxnNodes(keep: seq<string>, g: Graph, rxns: seq<Reaction>, sol: Fluxes, maxFlux: real, color: string)
    requires maxFlux > 0.0
    requires IdsIdentify(rxns)
    ensures forall x :: x in rxns ==>
      AddReactions(keep, g, rxns, sol, maxFlux, color).nodes[x.id] == RxnNodeOf(x, sol, maxFlux, color)
    decreases |rxns|
  {
    if |rxns| > 0 {
      var x0 := rxns[0];
      var rest := rxns[1..];
      var g1 := AddReaction(keep, g, x0, sol, maxFlux, color);
      assert forall x :: x in rxns <==> x == x0 || x in rest;
      AddReactionsRxnNodes(keep, g1, rest, sol, maxFlux, color);
      RxnIdsIff(rest);
      if x0.id in RxnIds(rest) {
        var x' :| x' in rest && x'.id == x0.id;
        assert x' == x0;
      }
    }
  }

  /** The reaction an edge belongs to: the endpoint that is not an
      allow-listed metabolite. */
  function Owner(keep: seq<string>, k: (string, string)): string {
    if k.0 in keep then k.1 else k.0
  }

  /** Every edge carries the weight and flux of the reaction it belongs to. */
  ghost predicate EdgesOwned(keep: seq<string>, g: Graph, sol: Fluxes, maxFlux: real)
    requires maxFlux > 0.0
  {
    forall k :: k in g.edges ==> g.edges[k] == EdgeOf(Owner(keep, k), sol, maxFlux)
  }

  /** When no reaction identifier is itself an allow-listed metabolite, every
      edge ends up with the attributes of its own reaction. */
  lemma {:induction false} AddReactionsEdgesOwned(keep: seq<string>, g: Graph, rxns: seq<Reaction>, sol: Fluxes, maxFlux: real, color: string)
    requires maxFlux > 0.0
    requires EdgesOwned(keep, g, sol, maxFlux)
    requires forall x :: x in rxns ==> x.id !in keep
    ensures EdgesOwned(keep, AddReactions(keep, g, rxns, sol, maxFlux, color), sol, maxFlux)
    decreases |rxns|
  {
    if |rxns| > 0 {
      var x := rxns[0];
      var g1 := AddReaction(keep, g, x, sol, maxFlux, color);
      EdgeKeysOfIff(keep, x.id, x.mets);
      forall k | k in g1.edges ensures g1.edges[k] == EdgeOf(Owner(keep, k), sol, maxFlux) {
        if k in EdgeKeysOf(keep, x.id, x.mets) {
          var j :| 0 <= j < |x.mets| && x.mets[j].0.id in keep && k == EdgeKey(x.id, x.mets[j]);
          assert Owner(keep, k) == x.id;
        }
      }
      assert forall y :: y in rxns[1..] ==> y in rxns;
      AddReactionsEdgesOwned(keep, g1, rxns[1..], sol, maxFlux, color);
    }
  }

  /** Every reaction node's size lies in [lo, hi]. */
  ghost predicate SizesWithin(g: Graph, lo: real, hi: real) {
    forall k :: k in g.nodes && g.nodes[k].RxnNode? ==> lo <= g.nodes[k].size <= hi
  }

  /** Every edge's weight lies in [lo, hi]. */
  ghost predicate WeightsWithin(g: Graph, lo: real, hi: real) {
    forall k :: k in g.edges ==> lo <= g.edges[k].weight <= hi
  }

  /** Adding reactions whose sizes and weights lie in given ranges keeps
      every reaction node and edge of the graph in those ranges. */
  lemma {:induction false} AddReactionsWithin(keep: seq<string>, g: Graph, rxns: seq<Reaction>, sol: Fluxes, maxFlux: real,
                                              color: string, lo: real, hi: real, wlo: real, whi: real)
    requires maxFlux > 0.0
    requires SizesWithin(g, lo, hi) && WeightsWithin(g, wlo, whi)
    requires forall x :: x in rxns ==> lo <= ScaledSize(Abs(FluxOr0(sol, x.id)), maxFlux) <= hi
    requires forall x :: x in rxns ==> wlo <= ScaledWeight(Abs(FluxOr0(sol, x.id)), maxFlux) <= whi
    ensures SizesWithin(AddReactions(keep, g, rxns, sol, maxFlux, color), lo, hi)
    ensures WeightsWithin(AddReactions(keep, g, rxns, sol, maxFlux, color), wlo, whi)
    decreases |rxns|
  {
    if |rxns| > 0 {
      var x := rxns[0];
      var g1 := AddReaction(keep, g, x, sol, maxFlux, color);
      assert x in rxns;
      assert SizesWithin(g1, lo, hi);
      assert WeightsWithin(g1, wlo, whi);
      assert forall y :: y in rxns[1..] ==> y in rxns;
      AddReactionsWithin(keep, g1, rxns[1..], sol, maxFlux, color, lo, hi, wlo, whi);
    }
  }

  /** A flux no larger in magnitude than the normaliser gives a size in
      [10, 50] and a weight in [1, 41]. */
  lemma ScaledRanges(absFlux: real, maxFlux: real)
    requires maxFlux > 0.0 && 0.0 <= absFlux <= maxFlux
    ensures 10.0 <= ScaledSize(absFlux, maxFlux) <= 50.0
    ensures 1.0 <= ScaledWeight(absFlux, maxFlux) <= 41.0
  {
    var q := absFlux / maxFlux;
    assert q * maxFlux == absFlux;
    assert (1.0 - q) * maxFlux == maxFlux - absFlux;
    assert 0.0 <= q <= 1.0;
  }

  /** After the reaction stage every node is a reaction node, an untouched
      node of the earlier graph, or a bare node for a metabolite the
      reactions involve that the earlier graph lacked. */
  lemma AddReactionsNodeKinds(keep: seq<string>, g: Graph, rxns: seq<Reaction>, sol: Fluxes, maxFlux: real, color: string)
    requires maxFlux > 0.0
    ensures var r := AddReactions(keep, g, rxns, sol, maxFlux, color);
      forall k :: k in r.nodes ==>
        || r.nodes[k].RxnNode?
        || (k in g.nodes && r.nodes[k] == g.nodes[k])
        || (k !in g.nodes && r.nodes[k] == Bare && k in KeptRefs(keep, rxns))
  {
    var r := AddReactions(keep, g, rxns, sol, maxFlux, color);
    RxnIdsIff(rxns);
    forall k | k in r.nodes && k in RxnIds(rxns) ensures r.nodes[k].RxnNode? {
      var x :| x in rxns && x.id == k;
    }
  }

  /** The successful network is the reaction stage applied to the metabolite
      stage, with the normaliser computed from the selected reactions. */
  lemma NetworkStages(keep: seq<string>, m: Model, sol: Fluxes, style: Style)
    requires BuildFluxNetwork(keep, m, sol, style).Success?
    ensures MaxFlux(SelectReactions(keep, m.reactions), sol).Success?
    ensures BuildFluxNetwork(keep, m, sol, style).value ==
      AddReactions(keep, MetaboliteLayer(keep, m, style), SelectReactions(keep, m.reactions), sol,
                   MaxFlux(SelectReactions(keep, m.reactions), sol).value, style.rxnColor)
  {
  }

  /** The nodes of the network: a metabolite node for each allow-listed
      identifier the model knows, a node for each selected reaction, and a
      node for each allow-listed metabolite a selected reaction involves. An
      allow-listed identifier that the model does not know and no selected
      reaction involves gets no node. */
  lemma FluxNetworkNodeIds(keep: seq<string>, m: Model, sol: Fluxes, style: Style)
    requires BuildFluxNetwork(keep, m, sol, style).Success?
    ensures var g := BuildFluxNetwork(keep, m, sol, style).value;
      forall k :: k in g.nodes <==>
        || (k in keep && k in m.metabolites)
        || (exists x :: x in m.reactions && Touches(keep, x) && x.id == k)
        || (k in keep && exists x, j :: x in m.reactions && Touches(keep, x) && 0 <= j < |x.mets| && x.mets[j].0.id == k)
  {
    NetworkStages(keep, m, sol, style);
    RxnIdsIff(SelectReactions(keep, m.reactions));
    KeptRefsEntries(keep, SelectReactions(keep, m.reactions));
  }

  /** Metabolite nodes all have size 20, and the only attribute-less nodes
      are allow-listed metabolites the model does not know. */
  lemma FluxNetworkNodeKinds(keep: seq<string>, m: Model, sol: Fluxes, style: Style)
    requires BuildFluxNetwork(keep, m, sol, style).Success?
    ensures var g := BuildFluxNetwork(keep, m, sol, style).value;
      forall k :: k in g.nodes && g.nodes[k].MetNode? ==> g.nodes[k].size == MetNodeSize
    ensures var g := BuildFluxNetwork(keep, m, sol, style).value;
      forall k :: k in g.nodes && g.nodes[k].Bare? ==>
        && k in keep && k !in m.metabolites
        && exists x, j :: x in m.reactions && Touches(keep, x) && 0 <= j < |x.mets| && x.mets[j].0.id == k
  {
    NetworkStages(keep, m, sol, style);
    var sel := SelectReactions(keep, m.reactions);
    var g0 := MetaboliteLayer(keep, m, style);
    var g := BuildFluxNetwork(keep, m, sol, style).value;
    AddReactionsMetNodes(keep, g0, sel, sol, MaxFlux(sel, sol).value, style.rxnColor);
    AddReactionsBareNodes(keep, g0, sel, sol, MaxFlux(sel, sol).value, style.rxnColor);
    forall k | k in g.nodes && g.nodes[k].Bare?
      ensures && k in keep && k !in m.metabolites
              && exists x, j :: x in m.reactions && Touches(keep, x) && 0 <= j < |x.mets| && x.mets[j].0.id == k
    {
      assert k !in g0.nodes && k in keep;
      var x, j :| x in sel && 0 <= j < |x.mets| && x.mets[j].0.id == k;
      assert x in m.reactions && Touches(keep, x);
    }
  }

  /** A metabolite node after the reaction stage is one the earlier graph
      already had, unchanged. */
  lemma AddReactionsMetNodes(keep: seq<string>, g: Graph, rxns: seq<Reaction>, sol: Fluxes, maxFlux: real, color: string)
    requires maxFlux > 0.0
    ensures var r := AddReactions(keep, g, rxns, sol, maxFlux, color);
      forall k :: k in r.nodes && r.nodes[k].MetNode? ==> k in g.nodes && r.nodes[k] == g.nodes[k]
  {
    AddReactionsNodeKinds(keep, g, rxns, sol, maxFlux, color);
  }

  /** A bare node after the reaction stage is new, allow-listed, and
      involved in one of the reactions, when the earlier graph had no bare
      nodes. */
  lemma AddReactionsBareNodes(keep: seq<string>, g: Graph, rxns: seq<Reaction>, sol: Fluxes, maxFlux: real, color: string)
    requires maxFlux > 0.0
    requires forall k :: k in g.nodes ==> !g.nodes[k].Bare?
    ensures var r := AddReactions(keep, g, rxns, sol, maxFlux, color);
      forall k :: k in r.nodes && r.nodes[k].Bare? ==>
        && k !in g.nodes && k in keep
        && exists x, j :: x in rxns && 0 <= j < |x.mets| && x.mets[j].0.id == k
  {
    AddReactionsNodeKinds(keep, g, rxns, sol, maxFlux, color);
    KeptRefsEntries(keep, rxns);
  }

  /** In a consistent model, where every metabolite a reaction involves is
      one of the model's, every node has attributes: the bare endpoints the
      graph library creates arise only from inconsistent models. */
  lemma FluxNetworkNoBareNodes(keep: seq<string>, m: Model, sol: Fluxes, style: Style)
    requires BuildFluxNetwork(keep, m, sol, style).Success?
    requires forall x, j :: x in m.reactions && 0 <= j < |x.mets| ==> x.mets[j].0.id in m.metabolites
    ensures var g := BuildFluxNetwork(keep, m, sol, style).value;
      forall k :: k in g.nodes ==> !g.nodes[k].Bare?
  {
    FluxNetworkNodeKinds(keep, m, sol, style);
  }

  /** A known allow-listed metabolite whose identifier is not also a
      selected reaction's keeps its metabolite node, labelled by its display
      name and drawn in the metabolite colour. */
  lemma FluxNetworkMetaboliteNodes(keep: seq<string>, m: Model, sol: Fluxes, style: Style)
    requires BuildFluxNetwork(keep, m, sol, style).Success?
    ensures var g := BuildFluxNetwork(keep, m, sol, style).value;
      forall k :: k in keep && k in m.metabolites && (forall x :: x in m.reactions && Touches(keep, x) ==> x.id != k) ==>
        g.nodes[k] == MetNode(m.metabolites[k].name, style.metColor, MetNodeSize)
  {
    NetworkStages(keep, m, sol, style);
    RxnIdsIff(SelectReactions(keep, m.reactions));
  }

  /** Each edge the reactions contribute has an allow-listed metabolite at
      one end. */
  lemma EdgeKeysTouchKeep(keep: seq<string>, rxns: seq<Reaction>)
    ensures forall k :: k in EdgeKeys(keep, rxns) ==> k.0 in keep || k.1 in keep
  {
    EdgeKeysIff(keep, rxns);
    forall x | x in rxns
      ensures forall k :: k in EdgeKeysOf(keep, x.id, x.mets) ==> k.0 in keep || k.1 in keep
    {
      EdgeKeysOfIff(keep, x.id, x.mets);
    }
  }

  /** Every edge has an allow-listed metabolite at one end. */
  lemma FluxNetworkEdgesTouchKeep(keep: seq<string>, m: Model, sol: Fluxes, style: Style)
    requires BuildFluxNetwork(keep, m, sol, style).Success?
    ensures var g := BuildFluxNetwork(keep, m, sol, style).value;
      forall k :: k in g.edges ==> k.0 in keep || k.1 in keep
  {
    FluxNetworkEdges(keep, m, sol, style);
  }

  /** Given reactions identified by their identifiers, each selected
      reaction's node carries its label, the reaction colour and a size
      scaled by its flux against the normaliser. */
  lemma FluxNetworkReactionNodes(keep: seq<string>, m: Model, sol: Fluxes, style: Style)
    requires BuildFluxNetwork(keep, m, sol, style).Success?
    requires IdsIdentify(m.reactions)
    ensures MaxFlux(SelectReactions(keep, m.reactions), sol).Success?
    ensures var g := BuildFluxNetwork(keep, m, sol, style).value;
      var peak := MaxFlux(SelectReactions(keep, m.reactions), sol).value;
      forall x :: x in m.reactions && Touches(keep, x) ==>
        g.nodes[x.id] == RxnNode(NodeLabel(x), style.rxnColor, ScaledSize(Abs(FluxOr0(sol, x.id)), peak))
  {
    NetworkStages(keep, m, sol, style);
    var sel := SelectReactions(keep, m.reactions);
    AddReactionsRxnNodes(keep, MetaboliteLayer(keep, m, style), sel, sol, MaxFlux(sel, sol).value, style.rxnColor);
  }

  /** The edges of the network: one per allow-listed entry of a selected
      reaction, from the metabolite to the reaction when it is consumed and
      from the reaction to the metabolite otherwise; no other edges. */
  lemma FluxNetworkEdges(keep: seq<string>, m: Model, sol: Fluxes, style: Style)
    requires BuildFluxNetwork(keep, m, sol, style).Success?
    ensures var g := BuildFluxNetwork(keep, m, sol, style).value;
      forall k :: k in g.edges <==>
        exists x, j :: x in m.reactions && Touches(keep, x) && 0 <= j < |x.mets| && x.mets[j].0.id in keep
                       && k == EdgeKey(x.id, x.mets[j])
  {
    NetworkStages(keep, m, sol, style);
    var sel := SelectReactions(keep, m.reactions);
    EdgeKeysIff(keep, sel);
    forall x | x in sel
      ensures forall k :: k in EdgeKeysOf(keep, x.id, x.mets) <==>
        exists j :: 0 <= j < |x.mets| && x.mets[j].0.id in keep && k == EdgeKey(x.id, x.mets[j])
    {
      EdgeKeysOfIff(keep, x.id, x.mets);
    }
  }

  /** When no selected reaction's identifier is itself an allow-listed
      metabolite, the edge for an allow-listed entry of a selected reaction
      carries that reaction's flux and a weight scaled by it. */
  lemma FluxNetworkEdgeWeights(keep: seq<string>, m: Model, sol: Fluxes, style: Style)
    requires BuildFluxNetwork(keep, m, sol, style).Success?
    requires forall x :: x in m.reactions && Touches(keep, x) ==> x.id !in keep
    ensures MaxFlux(SelectReactions(keep, m.reactions), sol).Success?
    ensures var g := BuildFluxNetwork(keep, m, sol, style).value;
      var peak := MaxFlux(SelectReactions(keep, m.reactions), sol).value;
      forall x, j :: x in m.reactions && Touches(keep, x) && 0 <= j < |x.mets| && x.mets[j].0.id in keep ==>
        && EdgeKey(x.id, x.mets[j]) in g.edges
        && g.edges[EdgeKey(x.id, x.mets[j])] == Edge(ScaledWeight(Abs(FluxOr0(sol, x.id)), peak), FluxOr0(sol, x.id))
  {
    NetworkStages(keep, m, sol, style);
    var sel := SelectReactions(keep, m.reactions);
    var peak := MaxFlux(sel, sol).value;
    var g0 := MetaboliteLayer(keep, m, style);
    forall x, j | x in m.reactions && Touches(keep, x) && 0 <= j < |x.mets| && x.mets[j].0.id in keep
      ensures var g := AddReactions(keep, g0, sel, sol, peak, style.rxnColor);
        EdgeKey(x.id, x.mets[j]) in g.edges && g.edges[EdgeKey(x.id, x.mets[j])] == EdgeOf(x.id, sol, peak)
    {
      AddReactionsEdgeOf(keep, g0, sel, sol, peak, style.rxnColor, x, j);
    }
  }

  /** The edge for an allow-listed entry of an added reaction carries that
      reaction's attributes, provided no reaction identifier is allow-listed
      and the earlier edges carry their own reactions' attributes. */
  lemma AddReactionsEdgeOf(keep: seq<string>, g: Graph, rxns: seq<Reaction>, sol: Fluxes, maxFlux: real, color: string,
                           x: Reaction, j: int)
    requires maxFlux > 0.0
    requires EdgesOwned(keep, g, sol, maxFlux)
    requires forall y :: y in rxns ==> y.id !in keep
    requires x in rxns && 0 <= j < |x.mets| && x.mets[j].0.id in keep
    ensures var r := AddReactions(keep, g, rxns, sol, maxFlux, color);
      EdgeKey(x.id, x.mets[j]) in r.edges && r.edges[EdgeKey(x.id, x.mets[j])] == EdgeOf(x.id, sol, maxFlux)
  {
    AddReactionsEdgesOwned(keep, g, rxns, sol, maxFlux, color);
    EdgeKeysIff(keep, rxns);
    EdgeKeysOfIff(keep, x.id, x.mets);
    assert EdgeKey(x.id, x.mets[j]) in EdgeKeysOf(keep, x.id, x.mets);
    assert Owner(keep, EdgeKey(x.id, x.mets[j])) == x.id;
  }

  /** Reaction node sizes lie in [10, 50] and edge weights in [1, 41]. */
  lemma FluxNetworkBounds(keep: seq<string>, m: Model, sol: Fluxes, style: Style)
    requires BuildFluxNetwork(keep, m, sol, style).Success?
    ensures SizesWithin(BuildFluxNetwork(keep, m, sol, style).value, 10.0, 50.0)
    ensures WeightsWithin(BuildFluxNetwork(keep, m, sol, style).value, 1.0, 41.0)
  {
    NetworkStages(keep, m, sol, style);
    var sel := SelectReactions(keep, m.reactions);
    var peak := MaxFlux(sel, sol).value;
    forall x | x in sel
      ensures 10.0 <= ScaledSize(Abs(FluxOr0(sol, x.id)), peak) <= 50.0
      ensures 1.0 <= ScaledWeight(Abs(FluxOr0(sol, x.id)), peak) <= 41.0
    {
      ScaledRanges(Abs(FluxOr0(sol, x.id)), peak);
    }
    AddReactionsWithin(keep, MetaboliteLayer(keep, m, style), sel, sol, peak, style.rxnColor, 10.0, 50.0, 1.0, 41.0);
  }

  /** When every selected reaction carries no flux, the normaliser falls
      back to 1.0: every reaction node has size 10 and every edge weight 1. */
  lemma FluxNetworkAllZero(keep: seq<string>, m: Model, sol: Fluxes, style: Style)
    requires BuildFluxNetwork(keep, m, sol, style).Success?
    requires forall x :: x in m.reactions && Touches(keep, x) ==> FluxOr0(sol, x.id) == 0.0
    ensures SizesWithin(BuildFluxNetwork(keep, m, sol, style).value, 10.0, 10.0)
    ensures WeightsWithin(BuildFluxNetwork(keep, m, sol, style).value, 1.0, 1.0)
  {
    NetworkStages(keep, m, sol, style);
    var sel := SelectReactions(keep, m.reactions);
    AddReactionsWithin(keep, MetaboliteLayer(keep, m, style), sel, sol, 1.0, style.rxnColor, 10.0, 10.0, 1.0, 1.0);
  }

  /** Given reactions identified by their identifiers, when some selected
      reaction carries flux, a selected reaction of largest flux magnitude
      is drawn at the full size 50. */
  lemma FluxNetworkPeakSize(keep: seq<string>, m: Model, sol: Fluxes, style: Style)
    requires BuildFluxNetwork(keep, m, sol, style).Success?
    requires IdsIdentify(m.reactions)
    requires exists x :: x in m.reactions && Touches(keep, x) && FluxOr0(sol, x.id) != 0.0
    ensures var g := BuildFluxNetwork(keep, m, sol, style).value;
      exists x :: x in m.reactions && Touches(keep, x) && x.id in g.nodes && g.nodes[x.id] == RxnNode(NodeLabel(x), style.rxnColor, 50.0)
  {
    NetworkStages(keep, m, sol, style);
    var sel := SelectReactions(keep, m.reactions);
    var peak := MaxFlux(sel, sol).value;
    var g := BuildFluxNetwork(keep, m, sol, style).value;
    var w :| w in m.reactions && Touches(keep, w) && FluxOr0(sol, w.id) != 0.0;
    assert w in sel;
    var x :| x in sel && Abs(FluxOr0(sol, x.id)) == peak;
    assert x in m.reactions && Touches(keep, x);
    AddReactionsRxnNodes(keep, MetaboliteLayer(keep, m, style), sel, sol, peak, style.rxnColor);
    assert x.id in g.nodes;
    assert g.nodes[x.id] == RxnNodeOf(x, sol, peak, style.rxnColor);
    ScaledSizeAtPeak(peak);
  }

  lemma ScaledSizeAtPeak(peak: real)
    requires peak > 0.0
    ensures ScaledSize(peak, peak) == 50.0
  {
    assert peak / peak == 1.0;
  }
}
