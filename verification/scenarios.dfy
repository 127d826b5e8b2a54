/** Concrete cases of the table and the network on a three-reaction model:
    R1 consumes GM3 into a metabolite outside the allow-list, R2 makes GM3
    from the lactosylceramide pool at flux 5, and R3 turns GM3 into GM2 at
    flux 15. */
module Scenarios {
  import opened Results
  import opened Cobra
  import opened Selection
  import opened Tabulation
  import opened FluxNetwork
  import opened FluxOrder
  import Seqs

  const LacCer := Metabolite("MAM02328g", "LacCer_Pool")
  const GM3 := Metabolite("MAM02015g", "GM3")
  const GM2 := Metabolite("MAM02011g", "GM2")
  const Other := Metabolite("MAM99999c", "other")

  const R1 := Reaction("R1", [(GM3, -1.0), (Other, 1.0)], ["G1"])
  const R2 := Reaction("R2", [(LacCer, -1.0), (GM3, 1.0)], ["ST3GAL5"])
  const R3 := Reaction("R3", [(GM3, -1.0), (GM2, 1.0)], [])

  const Sample := Model([R1, R2, R3], map["MAM02328g" := LacCer, "MAM02015g" := GM3, "MAM02011g" := GM2, "MAM99999c" := Other])
  const SampleFluxes: Fluxes := map["R1" := 2.0, "R2" := 5.0, "R3" := 15.0]

  /** The hard-coded allow-list lists GM3, GM2 and the lactosylceramide
      pool, and neither the fourth metabolite nor any reaction identifier. */
  lemma SampleListing()
    ensures SampleKeep(KeepMetabolites)
  {
    KeepListsSample();
    KeepShape();
    assert Other.id[8] == 'c';
  }

  lemma KeepListsSample()
    ensures GM3.id in KeepMetabolites && GM2.id in KeepMetabolites && LacCer.id in KeepMetabolites
  {
    assert KeepMetabolites[14] == GM3.id;
    assert KeepMetabolites[13] == GM2.id;
    assert KeepMetabolites[22] == LacCer.id;
  }

  /** Every allow-listed identifier has the `MAM…g` shape. */
  lemma KeepShape()
    ensures forall k :: k in KeepMetabolites ==> |k| == 9 && k[0] == 'M' && k[8] == 'g'
  {
  }

  /** The allow-lists the sample is read against: any that lists GM3, GM2
      and the lactosylceramide pool but not the fourth metabolite. */
  predicate SampleKeep(keep: seq<string>) {
    && GM3.id in keep && GM2.id in keep && LacCer.id in keep && Other.id !in keep
    && R1.id !in keep && R2.id !in keep && R3.id !in keep
  }

  /** Every reaction of the sample involves GM3, so all three are selected. */
  lemma SampleSelection(keep: seq<string>)
    requires SampleKeep(keep)
    ensures SelectReactions(keep, Sample.reactions) == [R1, R2, R3]
  {
    SampleTouches(keep);
    assert forall r :: r in Sample.reactions ==> r == R1 || r == R2 || r == R3;
    SelectAllTouching(keep, Sample.reactions);
  }

  /** Each sample reaction involves an allow-listed metabolite. */
  lemma SampleTouches(keep: seq<string>)
    requires SampleKeep(keep)
    ensures Touches(keep, R1) && Touches(keep, R2) && Touches(keep, R3)
  {
    assert R1.mets[0].0.id in keep;
    assert R2.mets[1].0.id in keep;
    assert R3.mets[0].0.id in keep;
  }

  /** R1's only product is not allow-listed, so its key-product cell is
      empty; R2's is GM3 and R3's is GM2. */
  lemma SampleKeyProducts(keep: seq<string>)
    requires SampleKeep(keep)
    ensures DraftOf(keep, R1).keyProduct == ""
    ensures DraftOf(keep, R2).keyProduct == "GM3"
    ensures DraftOf(keep, R3).keyProduct == "GM2"
  {
    KeyProductsOfPair(keep, GM3, -1.0, Other, 1.0);
    KeyProductsOfPair(keep, LacCer, -1.0, GM3, 1.0);
    KeyProductsOfPair(keep, GM3, -1.0, GM2, 1.0);
  }

  /** The key products of a two-entry reaction. */
  lemma KeyProductsOfPair(keep: seq<string>, a: Metabolite, ca: real, b: Metabolite, cb: real)
    ensures KeyProductNames(keep, [(a, ca), (b, cb)]) ==
      (if ca > 0.0 && a.id in keep then [a.name] else []) + (if cb > 0.0 && b.id in keep then [b.name] else [])
  {
    var es := [(a, ca), (b, cb)];
    assert es[1..] == [(b, cb)];
    assert es[1..][1..] == [];
    assert KeyProductNames(keep, []) == [];
    var tail := if cb > 0.0 && b.id in keep then [b.name] else [];
    assert KeyProductNames(keep, [(b, cb)]) == tail + [];
    assert tail + [] == tail;
  }

  /** Only R2's and R3's rows survive the key-product filter. */
  lemma SampleRetained(keep: seq<string>)
    requires SampleKeep(keep)
    ensures Seqs.Filter(Retained, Drafts(keep, Sample.reactions)) == [DraftOf(keep, R2), DraftOf(keep, R3)]
  {
    SampleKeyProducts(keep);
    DraftsOfThree(keep, R1, R2, R3);
    assert Sample.reactions == [R1, R2, R3];
    FilterFirstDropped(DraftOf(keep, R1), DraftOf(keep, R2), DraftOf(keep, R3));
  }

  /** Filtering three rows of which only the first has an empty key-product
      cell leaves the other two. */
  lemma FilterFirstDropped(d1: Draft, d2: Draft, d3: Draft)
    requires !Retained(d1) && Retained(d2) && Retained(d3)
    ensures Seqs.Filter(Retained, [d1] + ([d2] + [d3])) == [d2, d3]
  {
    RetainedOne(d1);
    RetainedOne(d2);
    RetainedOne(d3);
    Seqs.FilterConcat(Retained, [d2], [d3]);
    Seqs.FilterConcat(Retained, [d1], [d2] + [d3]);
  }

  /** One drafted row per reaction of a three-reaction selection, in order. */
  lemma DraftsOfThree(keep: seq<string>, a: Reaction, b: Reaction, c: Reaction)
    ensures Drafts(keep, [a, b, c]) == [DraftOf(keep, a)] + ([DraftOf(keep, b)] + [DraftOf(keep, c)])
  {
    var ds := Drafts(keep, [a, b, c]);
    var da, db, dc := DraftOf(keep, a), DraftOf(keep, b), DraftOf(keep, c);
    assert ds[0] == da && ds[1] == db && ds[2] == dc;
    assert [da] + ([db] + [dc]) == [da, db, dc];
  }

  /** Filtering a single row keeps it exactly when its key-product cell is
      not empty. */
  lemma RetainedOne(d: Draft)
    ensures Seqs.Filter(Retained, [d]) == if Retained(d) then [d] else []
  {
    assert [d][1..] == [];
  }

  /** Fluxes 5 and 15 out of a total of 20 are 25% and 75%. */
  lemma SampleAttached(d2: Draft, d3: Draft)
    requires d2.reactionId == "R2" && d3.reactionId == "R3"
    ensures AttachFlux([d2, d3], SampleFluxes) == [Record(d2, Some(5.0), Some(25.0)), Record(d3, Some(15.0), Some(75.0))]
  {
    var ds := [d2, d3];
    assert ds[1..] == [d3];
    assert ds[1..][1..] == [];
    assert Lookup(SampleFluxes, "R2") == Some(5.0);
    assert Lookup(SampleFluxes, "R3") == Some(15.0);
    assert FluxTotal([], SampleFluxes) == 0.0;
    assert FluxTotal([d3], SampleFluxes) == 15.0;
    assert FluxTotal(ds, SampleFluxes) == 20.0;
  }

  /** Sorting two rows with fluxes 5 and 15 puts the 15 first. */
  lemma SampleSorted(a: Record, b: Record)
    requires a.flux == Some(5.0) && b.flux == Some(15.0)
    ensures SortDesc([a, b], FluxOf) == [b, a]
  {
    assert [a, b][1..] == [b];
    assert [b][1..] == [];
    assert SortDesc([b], FluxOf) == [b];
    assert Insert(a, [b], FluxOf) == [b] + Insert(a, [], FluxOf);
  }

  /** R1 has no allow-listed product and is dropped; R2 and R3 share the
      flux 20 as 25% and 75%, listed with the larger flux first. */
  lemma SampleTableFor(keep: seq<string>)
    requires SampleKeep(keep)
    ensures var t := Tabulate(keep, Sample, SampleFluxes);
      && t.Success? && |t.value| == 2
      && t.value[0].draft.reactionId == "R3" && t.value[0].flux == Some(15.0) && t.value[0].relativeFlux == Some(75.0)
      && t.value[1].draft.reactionId == "R2" && t.value[1].flux == Some(5.0) && t.value[1].relativeFlux == Some(25.0)
  {
    SampleSelection(keep);
    SampleRetained(keep);
    var d2 := DraftOf(keep, R2);
    var d3 := DraftOf(keep, R3);
    SampleAttached(d2, d3);
    var a := Record(d2, Some(5.0), Some(25.0));
    var b := Record(d3, Some(15.0), Some(75.0));
    SampleSorted(a, b);
    assert Tabulate(keep, Sample, SampleFluxes) == Success(SortDesc([a, b], FluxOf));
  }

  /** The table `tabulate_model_results` gives for the sample. */
  lemma SampleTable()
    ensures var t := TabulateModelResults(Sample, SampleFluxes);
      && t.Success? && |t.value| == 2
      && t.value[0].draft.reactionId == "R3" && t.value[0].relativeFlux == Some(75.0)
      && t.value[1].draft.reactionId == "R2" && t.value[1].relativeFlux == Some(25.0)
  {
    SampleListing();
    SampleTableFor(KeepMetabolites);
  }

  /** The largest flux magnitude among the sample's reactions is R3's 15. */
  lemma SamplePeak()
    ensures MaxFlux([R1, R2, R3], SampleFluxes) == Success(15.0)
  {
    var rs := [R1, R2, R3];
    assert rs[1..] == [R2, R3];
    assert rs[1..][1..] == [R3];
    assert FluxOr0(SampleFluxes, "R1") == 2.0;
    assert FluxOr0(SampleFluxes, "R2") == 5.0;
    assert FluxOr0(SampleFluxes, "R3") == 15.0;
    assert PeakAbsFlux([R3], SampleFluxes) == 15.0;
    assert PeakAbsFlux([R2, R3], SampleFluxes) == 15.0;
  }

  /** The sample's network is the reaction stage over all three reactions,
      normalised by R3's flux 15. */
  lemma SampleNetworkStages(keep: seq<string>, style: Style)
    requires SampleKeep(keep)
    ensures BuildFluxNetwork(keep, Sample, SampleFluxes, style) ==
      Success(AddReactions(keep, MetaboliteLayer(keep, Sample, style), Sample.reactions, SampleFluxes, 15.0, style.rxnColor))
  {
    SampleSelection(keep);
    SamplePeak();
    assert Touches(keep, R1) by { assert R1.mets[0].0.id in keep; }
  }

  /** In the sample's network R3 is drawn at the full size 50 and R2 at a
      third of the way up. */
  lemma SampleNetworkNodes(keep: seq<string>, style: Style)
    requires SampleKeep(keep)
    ensures var n := BuildFluxNetwork(keep, Sample, SampleFluxes, style);
      && n.Success?
      && "R3" in n.value.nodes && "R2" in n.value.nodes
      && n.value.nodes["R3"] == RxnNode("R3", style.rxnColor, 50.0)
      && n.value.nodes["R2"] == RxnNode("ST3GAL5", style.rxnColor, 5.0 / 15.0 * 40.0 + 10.0)
  {
    SampleNetworkStages(keep, style);
    SampleStageNodes(keep, MetaboliteLayer(keep, Sample, style), style.rxnColor);
  }

  /** The reaction stage over the sample, from any starting graph. */
  lemma SampleStageNodes(keep: seq<string>, g0: Graph, color: string)
    ensures var g := AddReactions(keep, g0, Sample.reactions, SampleFluxes, 15.0, color);
      && "R3" in g.nodes && "R2" in g.nodes
      && g.nodes["R3"] == RxnNode("R3", color, 50.0)
      && g.nodes["R2"] == RxnNode("ST3GAL5", color, 5.0 / 15.0 * 40.0 + 10.0)
  {
    assert IdsIdentify(Sample.reactions);
    AddReactionsRxnNodes(keep, g0, Sample.reactions, SampleFluxes, 15.0, color);
    assert R2 in Sample.reactions && R3 in Sample.reactions;
    SampleRxnNodes(color);
  }

  lemma SampleRxnNodes(color: string)
    ensures RxnNodeOf(R3, SampleFluxes, 15.0, color) == RxnNode("R3", color, 50.0)
    ensures RxnNodeOf(R2, SampleFluxes, 15.0, color) == RxnNode("ST3GAL5", color, 5.0 / 15.0 * 40.0 + 10.0)
  {
    assert FluxOr0(SampleFluxes, "R2") == 5.0;
    assert FluxOr0(SampleFluxes, "R3") == 15.0;
    assert 15.0 / 15.0 == 1.0;
  }

  /** GM3 feeds R3 over an edge of the full weight 41, titled with R3's
      flux. */
  lemma SampleNetworkEdge(keep: seq<string>, style: Style)
    requires SampleKeep(keep)
    ensures var n := BuildFluxNetwork(keep, Sample, SampleFluxes, style);
      && n.Success?
      && (GM3.id, "R3") in n.value.edges
      && n.value.edges[(GM3.id, "R3")] == Edge(41.0, 15.0)
  {
    SampleNetworkStages(keep, style);
    SampleStageEdge(keep, MetaboliteLayer(keep, Sample, style), style.rxnColor);
  }

  /** The reaction stage over the sample, from a graph without edges. */
  lemma SampleStageEdge(keep: seq<string>, g0: Graph, color: string)
    requires SampleKeep(keep)
    requires g0.edges == map[]
    ensures var g := AddReactions(keep, g0, Sample.reactions, SampleFluxes, 15.0, color);
      && (GM3.id, "R3") in g.edges
      && g.edges[(GM3.id, "R3")] == Edge(41.0, 15.0)
  {
    AddReactionsEdgesOwned(keep, g0, Sample.reactions, SampleFluxes, 15.0, color);
    EdgeKeysIff(keep, Sample.reactions);
    EdgeKeysOfIff(keep, R3.id, R3.mets);
    assert R3 in Sample.reactions;
    assert EdgeKey(R3.id, R3.mets[0]) == (GM3.id, "R3");
    assert Owner(keep, (GM3.id, "R3")) == "R3";
    assert FluxOr0(SampleFluxes, "R3") == 15.0;
    assert 15.0 / 15.0 == 1.0;
  }

  /** R1's product outside the allow-list gets neither a node nor an edge. */
  lemma SampleNetworkSkipsOther(keep: seq<string>, style: Style)
    requires SampleKeep(keep)
    ensures var n := BuildFluxNetwork(keep, Sample, SampleFluxes, style);
      && n.Success?
      && Other.id !in n.value.nodes
      && ("R1", Other.id) !in n.value.edges
  {
    SampleNetworkStages(keep, style);
    SampleStageSkipsOther(keep, MetaboliteLayer(keep, Sample, style), style.rxnColor);
  }

  /** The reaction stage over the sample, from a graph with neither edges
      nor a node for the metabolite outside the allow-list. */
  lemma SampleStageSkipsOther(keep: seq<string>, g0: Graph, color: string)
    requires SampleKeep(keep)
    requires g0.edges == map[] && Other.id !in g0.nodes
    ensures var g := AddReactions(keep, g0, Sample.reactions, SampleFluxes, 15.0, color);
      Other.id !in g.nodes && ("R1", Other.id) !in g.edges
  {
    assert Other.id !in RxnIds(Sample.reactions) by {
      RxnIdsIff(Sample.reactions);
      assert forall x :: x in Sample.reactions ==> x.id[0] == 'R';
    }
    assert Other.id !in KeptRefs(keep, Sample.reactions) by {
      KeptRefsEntries(keep, Sample.reactions);
    }
    assert ("R1", Other.id) !in EdgeKeys(keep, Sample.reactions) by {
      EdgeKeysTouchKeep(keep, Sample.reactions);
    }
  }
}
