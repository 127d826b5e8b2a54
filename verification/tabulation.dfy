/** The result tabulator: one row per selected reaction that produces an
    allow-listed metabolite, with reactants and products split by the sign of
    their coefficient, the flux looked up in the solution, each row's share
    of the total flux, and the rows sorted by flux, largest first. */
module Tabulation {
  import opened Results
  import opened Cobra
  import opened Selection
  import Seqs
  import opened Text
  import opened FluxOrder

  /** Consumed: strictly negative coefficient. */
  predicate IsReactant(e: Entry) { e.1 < 0.0 }

  /** Produced: strictly positive coefficient. */
  predicate IsProduct(e: Entry) { e.1 > 0.0 }

  /** Listed on neither side: a zero coefficient. */
  predicate IsUnchanged(e: Entry) { e.1 == 0.0 }

  function ReactantEntries(r: Reaction): seq<Entry> { Seqs.Filter(IsReactant, r.mets) }

  function ProductEntries(r: Reaction): seq<Entry> { Seqs.Filter(IsProduct, r.mets) }

  /** `"<id> (<name>)"`, the way each side of the reaction is printed. */
  function FormatMet(m: Metabolite): string {
    m.id + " (" + m.name + ")"
  }

  /** An item starts with the identifier, ends with `")"`, and holds the
      display name between `" ("` and that closing parenthesis, so the
      identifier and the name can be read back from it. */
  lemma FormatMetParts(m: Metabolite)
    ensures var s := FormatMet(m);
      |s| == |m.id| + |m.name| + 3 && s[..|m.id|] == m.id && s[|m.id|..|m.id| + 2] == " ("
      && s[|m.id| + 2..|s| - 1] == m.name && s[|s| - 1] == ')'
  {
    var s := FormatMet(m);
    assert s == m.id + " (" + m.name + ")";
    assert s[..|m.id|] == m.id;
    assert s[|m.id|..|m.id| + 2] == " (";
    assert s[|m.id| + 2..|s| - 1] == m.name;
  }

  /** The printed side of a reaction: one `"<id> (<name>)"` item per entry,
      in entry order. */
  function Formatted(es: seq<Entry>): (r: seq<string>)
    ensures |r| == |es|
    ensures forall i :: 0 <= i < |es| ==> r[i] == es[i].0.id + " (" + es[i].0.name + ")"
  {
    seq(|es|, i requires 0 <= i < |es| => FormatMet(es[i].0))
  }

  /** The display names of the allow-listed products, in entry order. */
  function KeyProductNames(keep: seq<string>, es: seq<Entry>): (names: seq<string>)
    ensures forall n :: n in names <==>
      exists i :: 0 <= i < |es| && es[i].1 > 0.0 && es[i].0.id in keep && es[i].0.name == n
    ensures |names| <= |es|
    ensures |es| == 1 ==> names == if es[0].1 > 0.0 && es[0].0.id in keep then [es[0].0.name] else []
  {
    if |es| == 0 then []
    else
      assert forall i :: 0 < i < |es| ==> es[i] == es[1..][i - 1];
      (if es[0].1 > 0.0 && es[0].0.id in keep then [es[0].0.name] else []) + KeyProductNames(keep, es[1..])
  }

  /** The key products of a concatenation are those of each part, in order:
      with the one-entry case above, this fixes both the order and the number
      of names in the key-product cell. */
  lemma {:induction false} KeyProductNamesConcat(keep: seq<string>, a: seq<Entry>, b: seq<Entry>)
    ensures KeyProductNames(keep, a + b) == KeyProductNames(keep, a) + KeyProductNames(keep, b)
  {
    if |a| == 0 {
      assert a + b == b;
    } else {
      assert (a + b)[1..] == a[1..] + b;
      KeyProductNamesConcat(keep, a[1..], b);
    }
  }

  /** A printed side is empty exactly when no entry is on that side: every
      printed item is at least `" ()"` long. */
  lemma SideCellEmptyIff(side: Entry -> bool, es: seq<Entry>)
    ensures Join(Formatted(Seqs.Filter(side, es)), ", ") == "" <==> forall i :: 0 <= i < |es| ==> !side(es[i])
  {
    var items := Formatted(Seqs.Filter(side, es));
    JoinEmptyIff(items, ", ");
    if |items| == 1 {
      assert |items[0]| >= 3;
    }
    if forall i :: 0 <= i < |es| ==> !side(es[i]) {
      if |Seqs.Filter(side, es)| > 0 {
        assert Seqs.Filter(side, es)[0] in Seqs.Filter(side, es);
      }
    } else {
      var i :| 0 <= i < |es| && side(es[i]);
      assert es[i] in Seqs.Filter(side, es);
    }
  }

  /** The row built for one reaction before fluxes are attached; every text
      column is a comma-separated list. */
  datatype Draft = Draft(
    reactionId: string,
    reactants: string,
    products: string,
    keyProduct: string,
    genes: string)

  /** The row dictionary for one reaction: its identifier, the printed
      reactants and products, the key-product names and the genes. The
      genes cell is empty exactly when the gene list joins to nothing. */
  function DraftOf(keep: seq<string>, r: Reaction): (d: Draft)
    ensures d.reactionId == r.id
    ensures d.genes == "" <==> |r.genes| == 0 || (|r.genes| == 1 && r.genes[0] == "")
  {
    JoinEmptyIff(r.genes, ", ");
    Draft(
      r.id,
      Join(Formatted(ReactantEntries(r)), ", "),
      Join(Formatted(ProductEntries(r)), ", "),
      Join(KeyProductNames(keep, r.mets), ", "),
      Join(r.genes, ", "))
  }

  /** A drafted side cell is empty exactly when the reaction has no entry on
      that side. */
  lemma DraftSideCells(keep: seq<string>, r: Reaction)
    ensures DraftOf(keep, r).reactants == "" <==> forall i :: 0 <= i < |r.mets| ==> r.mets[i].1 >= 0.0
    ensures DraftOf(keep, r).products == "" <==> forall i :: 0 <= i < |r.mets| ==> r.mets[i].1 <= 0.0
  {
    SideCellEmptyIff(IsReactant, r.mets);
    SideCellEmptyIff(IsProduct, r.mets);
  }

  /** The filter applied to the drafted table: the key-product cell is not
      the empty string. */
  predicate Retained(d: Draft) { d.keyProduct != "" }

  function Drafts(keep: seq<string>, sel: seq<Reaction>): (ds: seq<Draft>)
    ensures |ds| == |sel|
    ensures forall i :: 0 <= i < |sel| ==> ds[i] == DraftOf(keep, sel[i])
  {
    seq(|sel|, i requires 0 <= i < |sel| => DraftOf(keep, sel[i]))
  }

  /** A finished row: the draft, its flux (None for an identifier missing
      from the solution, which pandas shows as NaN) and its share of the
      total flux in percent (None where pandas would hold NaN or infinity). */
  datatype Record = Record(draft: Draft, flux: Option<real>, relativeFlux: Option<real>)

  function FluxOf(rec: Record): Option<real> { rec.flux }

  function RelativeOf(rec: Record): Option<real> { rec.relativeFlux }

  /** `Index.map(dict)`: the flux recorded for a reaction, if any. */
  function Lookup(sol: Fluxes, id: string): (f: Option<real>)
    ensures f.Some? <==> id in sol
    ensures f.Some? ==> f.value == sol[id]
  {
    if id in sol then Some(sol[id]) else None
  }

  /** Sum of the fluxes found for the drafts, skipping missing ones as
      `Series.sum()` skips NaN. */
  function FluxTotal(ds: seq<Draft>, sol: Fluxes): (t: real)
    ensures (forall i :: 0 <= i < |ds| ==> ds[i].reactionId !in sol) ==> t == 0.0
  {
    assert forall i :: 0 <= i < |ds| - 1 ==> ds[1..][i] == ds[i + 1];
    if |ds| == 0 then 0.0
    else Lookup(sol, ds[0].reactionId).GetOr(0.0) + FluxTotal(ds[1..], sol)
  }

  /** Present fluxes all of one sign give a total of that sign. */
  lemma {:induction false} FluxTotalSign(ds: seq<Draft>, sol: Fluxes)
    ensures (forall i :: 0 <= i < |ds| ==> Lookup(sol, ds[i].reactionId).GetOr(0.0) >= 0.0) ==> FluxTotal(ds, sol) >= 0.0
    ensures (forall i :: 0 <= i < |ds| ==> Lookup(sol, ds[i].reactionId).GetOr(0.0) <= 0.0) ==> FluxTotal(ds, sol) <= 0.0
  {
    if |ds| > 0 {
      assert forall i :: 0 <= i < |ds| - 1 ==> ds[1..][i] == ds[i + 1];
      FluxTotalSign(ds[1..], sol);
    }
  }

  /** `flux / total * 100`; not a finite number when the flux is missing or
      the total is zero. */
  function Relative(flux: Option<real>, total: real): (p: Option<real>)
    ensures p.Some? <==> flux.Some? && total != 0.0
  {
    match flux
    case None => None
    case Some(f) => if total == 0.0 then None else Some(f / total * 100.0)
  }

  /** A relative flux, scaled back by the total, gives the flux in percent:
      the share is taken of exactly that total. */
  lemma RelativeScalesBack(flux: Option<real>, total: real)
    requires Relative(flux, total).Some?
    ensures Relative(flux, total).value * total == flux.value * 100.0
  {
    var f := flux.value;
    assert f / total * total == f;
  }

  function RecordOf(d: Draft, sol: Fluxes, total: real): Record {
    Record(d, Lookup(sol, d.reactionId), Relative(Lookup(sol, d.reactionId), total))
  }

  function Attach(ds: seq<Draft>, sol: Fluxes, total: real): (recs: seq<Record>)
    ensures |recs| == |ds|
    ensures forall i :: 0 <= i < |ds| ==> recs[i] == RecordOf(ds[i], sol, total)
  {
    if |ds| == 0 then [] else [RecordOf(ds[0], sol, total)] + Attach(ds[1..], sol, total)
  }

  /** The flux column of the attached table adds up to the total the
      relative fluxes were divided by. */
  lemma {:induction false} AttachFluxTotal(ds: seq<Draft>, sol: Fluxes, total: real)
    ensures SumPresent(Attach(ds, sol, total), FluxOf) == FluxTotal(ds, sol)
  {
    if |ds| > 0 {
      AttachFluxTotal(ds[1..], sol, total);
      assert Attach(ds, sol, total)[1..] == Attach(ds[1..], sol, total);
    }
  }

  /** Percentages of a common total add like the quantities themselves. */
  lemma SharesAdd(a: real, b: real, t: real)
    requires t != 0.0
    ensures a / t * 100.0 + b / t * 100.0 == (a + b) / t * 100.0
  {
  }

  /** The relative-flux column adds up to the flux column's total divided by
      `total`, in percent. */
  lemma {:induction false} AttachRelativeTotal(ds: seq<Draft>, sol: Fluxes, total: real)
    requires total != 0.0
    ensures SumPresent(Attach(ds, sol, total), RelativeOf) == FluxTotal(ds, sol) / total * 100.0
  {
    if |ds| > 0 {
      AttachRelativeTotal(ds[1..], sol, total);
      var recs := Attach(ds, sol, total);
      assert recs[1..] == Attach(ds[1..], sol, total);
      var f := Lookup(sol, ds[0].reactionId).GetOr(0.0);
      var rest := FluxTotal(ds[1..], sol);
      assert RelativeOf(recs[0]).GetOr(0.0) == f / total * 100.0;
      SharesAdd(f, rest, total);
    }
  }

  /** Attaches the flux columns: each row keeps its draft and position, gets
      its own flux, and gets that flux as a percentage of the sum of the
      table's present fluxes. */
  function AttachFlux(ds: seq<Draft>, sol: Fluxes): (recs: seq<Record>)
    ensures |recs| == |ds|
    ensures forall i :: 0 <= i < |ds| ==> recs[i].draft == ds[i] && recs[i].flux == Lookup(sol, ds[i].reactionId)
    ensures forall i :: 0 <= i < |ds| ==> recs[i].relativeFlux == Relative(recs[i].flux, SumPresent(recs, FluxOf))
  {
    AttachFluxTotal(ds, sol, FluxTotal(ds, sol));
    Attach(ds, sol, FluxTotal(ds, sol))
  }

  /** Whenever the fluxes present in the table do not sum to zero, the
      relative fluxes sum to exactly 100 percent. */
  lemma RelativeFluxSumsTo100(ds: seq<Draft>, sol: Fluxes)
    requires SumPresent(AttachFlux(ds, sol), FluxOf) != 0.0
    ensures SumPresent(AttachFlux(ds, sol), RelativeOf) == 100.0
  {
    var t := FluxTotal(ds, sol);
    AttachFluxTotal(ds, sol, t);
    AttachRelativeTotal(ds, sol, t);
    PercentOfSelf(t);
  }

  lemma PercentOfSelf(t: real)
    requires t != 0.0
    ensures t / t * 100.0 == 100.0
  {
    assert t / t == 1.0;
  }

  /** `tabulate_model_results(model, sol)` for a given allow-list. With no
      reaction selected the drafted frame has no columns, and filtering on
      "Key Product" raises a KeyError. Otherwise the table is the retained
      rows of the selected reactions with their fluxes attached, reordered so
      that fluxes never increase down the table and missing fluxes come
      last. */
  function Tabulate(keep: seq<string>, m: Model, sol: Fluxes): (r: Result<seq<Record>>)
    ensures r.Failure? <==> forall rx :: rx in m.reactions ==> !Touches(keep, rx)
    ensures r.Failure? ==> r.error == MissingColumn("Key Product")
    ensures r.Success? ==> SortedDesc(r.value, FluxOf)
    ensures r.Success? ==>
      multiset(r.value) == multiset(AttachFlux(Seqs.Filter(Retained, Drafts(keep, SelectReactions(keep, m.reactions))), sol))
  {
    var sel := SelectReactions(keep, m.reactions);
    SelectionEmptyIff(keep, m.reactions);
    if |sel| == 0 then Failure(MissingColumn("Key Product"))
    else
      var kept := Seqs.Filter(Retained, Drafts(keep, sel));
      Success(SortDesc(AttachFlux(kept, sol), FluxOf))
  }

  /** `tabulate_model_results(model, sol)` with its hard-coded allow-list. */
  function TabulateModelResults(m: Model, sol: Fluxes): (r: Result<seq<Record>>)
    ensures r.Failure? <==> forall rx :: rx in m.reactions ==> !Touches(KeepMetabolites, rx)
    ensures r.Success? ==> SortedDesc(r.value, FluxOf)
  {
    Tabulate(KeepMetabolites, m, sol)
  }

  /** Every entry lands in exactly one of three places: the reactant list
      (negative coefficient), the product list (positive coefficient), or
      neither (zero coefficient). */
  lemma {:induction false} SignPartitionCounts(es: seq<Entry>)
    ensures |Seqs.Filter(IsReactant, es)| + |Seqs.Filter(IsProduct, es)| + |Seqs.Filter(IsUnchanged, es)| == |es|
  {
    if |es| > 0 {
      SignPartitionCounts(es[1..]);
    }
  }

  /** Reactants are exactly the entries with a negative coefficient and
      products exactly those with a positive one; an entry with a zero
      coefficient is in neither list, and no entry is in both. */
  lemma SignPartition(r: Reaction)
    ensures forall e :: e in ReactantEntries(r) <==> e in r.mets && e.1 < 0.0
    ensures forall e :: e in ProductEntries(r) <==> e in r.mets && e.1 > 0.0
    ensures forall e :: e in r.mets && e.1 == 0.0 ==> e !in ReactantEntries(r) && e !in ProductEntries(r)
    ensures |ReactantEntries(r)| + |ProductEntries(r)| + |Seqs.Filter(IsUnchanged, r.mets)| == |r.mets|
  {
    SignPartitionCounts(r.mets);
  }

  /** Since a reaction lists each metabolite once, no metabolite is printed
      both as a reactant and as a product. */
  lemma ReactantsProductsDisjoint(r: Reaction)
    requires DistinctMetabolites(r)
    ensures forall a, b :: a in ReactantEntries(r) && b in ProductEntries(r) ==> a.0.id != b.0.id
  {
    forall a, b | a in ReactantEntries(r) && b in ProductEntries(r)
      ensures a.0.id != b.0.id
    {
      var i :| 0 <= i < |r.mets| && r.mets[i] == a;
      var j :| 0 <= j < |r.mets| && r.mets[j] == b;
      assert i != j;
      if i < j {
        assert r.mets[i].0.id != r.mets[j].0.id;
      } else {
        assert r.mets[j].0.id != r.mets[i].0.id;
      }
    }
  }

  /** A drafted row survives the key-product filter exactly when the joined
      names are non-empty: two or more allow-listed products, or one whose
      display name is not empty. */
  lemma RetainedIff(keep: seq<string>, r: Reaction)
    ensures var names := KeyProductNames(keep, r.mets);
      Retained(DraftOf(keep, r)) <==> |names| > 1 || (|names| == 1 && names[0] != "")
  {
    JoinEmptyIff(KeyProductNames(keep, r.mets), ", ");
  }

  /** A retained row's reaction produces at least one allow-listed
      metabolite; conversely a reaction producing an allow-listed metabolite
      with a non-empty name is retained. */
  lemma RetainedHasKeyProduct(keep: seq<string>, r: Reaction)
    ensures Retained(DraftOf(keep, r)) ==>
      exists i :: 0 <= i < |r.mets| && r.mets[i].1 > 0.0 && r.mets[i].0.id in keep
    ensures (exists i :: 0 <= i < |r.mets| && r.mets[i].1 > 0.0 && r.mets[i].0.id in keep && r.mets[i].0.name != "") ==>
      Retained(DraftOf(keep, r))
  {
    RetainedIff(keep, r);
    var names := KeyProductNames(keep, r.mets);
    if Retained(DraftOf(keep, r)) {
      assert names[0] in names;
    }
    if exists i :: 0 <= i < |r.mets| && r.mets[i].1 > 0.0 && r.mets[i].0.id in keep && r.mets[i].0.name != "" {
      var i :| 0 <= i < |r.mets| && r.mets[i].1 > 0.0 && r.mets[i].0.id in keep && r.mets[i].0.name != "";
      assert r.mets[i].0.name in names;
    }
  }

  /** A reaction that involves allow-listed metabolites but produces none of
      them is selected and then dropped from the table. */
  lemma ReactantOnlyDropped(keep: seq<string>, rs: seq<Reaction>, r: Reaction)
    requires r in rs && Touches(keep, r)
    requires forall i :: 0 <= i < |r.mets| && r.mets[i].0.id in keep ==> r.mets[i].1 <= 0.0
    ensures r in SelectReactions(keep, rs)
    ensures !Retained(DraftOf(keep, r))
  {
    RetainedHasKeyProduct(keep, r);
  }

  /** A row of the attached table comes from a retained draft of a selected
      reaction and carries that reaction's flux. */
  lemma AttachedRowOrigin(keep: seq<string>, m: Model, sol: Fluxes, row: Record)
    requires row in AttachFlux(Seqs.Filter(Retained, Drafts(keep, SelectReactions(keep, m.reactions))), sol)
    ensures Retained(row.draft)
    ensures exists rx :: rx in m.reactions && Touches(keep, rx) && row.draft == DraftOf(keep, rx)
    ensures row.flux == Lookup(sol, row.draft.reactionId)
  {
    var sel := SelectReactions(keep, m.reactions);
    var ds := Drafts(keep, sel);
    var kept := Seqs.Filter(Retained, ds);
    var recs := AttachFlux(kept, sol);
    var i :| 0 <= i < |recs| && recs[i] == row;
    assert row.draft == kept[i] && row.flux == Lookup(sol, kept[i].reactionId);
    assert kept[i] in kept;
    assert Retained(kept[i]) && kept[i] in ds;
    var j :| 0 <= j < |ds| && ds[j] == kept[i];
    assert ds[j] == DraftOf(keep, sel[j]);
    assert sel[j] in sel;
    assert sel[j] in m.reactions && Touches(keep, sel[j]);
  }

  /** Every row of the table is a retained row of a selected reaction of the
      model, with that reaction's flux from the solution. */
  lemma TableRowsFromModel(keep: seq<string>, m: Model, sol: Fluxes)
    requires Tabulate(keep, m, sol).Success?
    ensures forall row :: row in Tabulate(keep, m, sol).value ==>
      && Retained(row.draft)
      && (exists rx :: rx in m.reactions && Touches(keep, rx) && row.draft == DraftOf(keep, rx))
      && row.flux == Lookup(sol, row.draft.reactionId)
  {
    var rows := Tabulate(keep, m, sol).value;
    forall row | row in rows
      ensures Retained(row.draft)
      ensures exists rx :: rx in m.reactions && Touches(keep, rx) && row.draft == DraftOf(keep, rx)
      ensures row.flux == Lookup(sol, row.draft.reactionId)
    {
      assert row in multiset(rows);
      AttachedRowOrigin(keep, m, sol, row);
    }
  }

  /** Each row's relative flux is its flux as a percentage of the table's
      flux total, and the relative fluxes sum to 100 whenever that total is
      not zero. */
  lemma TableRelativeFlux(keep: seq<string>, m: Model, sol: Fluxes)
    requires Tabulate(keep, m, sol).Success?
    ensures var rows := Tabulate(keep, m, sol).value;
      forall row :: row in rows ==> row.relativeFlux == Relative(row.flux, SumPresent(rows, FluxOf))
    ensures var rows := Tabulate(keep, m, sol).value;
      SumPresent(rows, FluxOf) != 0.0 ==> SumPresent(rows, RelativeOf) == 100.0
  {
    var kept := Seqs.Filter(Retained, Drafts(keep, SelectReactions(keep, m.reactions)));
    var recs := AttachFlux(kept, sol);
    var rows := Tabulate(keep, m, sol).value;
    assert rows == SortDesc(recs, FluxOf);
    SumPresentSort(recs, FluxOf, FluxOf);
    SumPresentSort(recs, FluxOf, RelativeOf);
    forall row | row in rows
      ensures row.relativeFlux == Relative(row.flux, SumPresent(rows, FluxOf))
    {
      assert row in multiset(rows);
      assert row in recs;
    }
    if SumPresent(rows, FluxOf) != 0.0 {
      RelativeFluxSumsTo100(kept, sol);
    }
  }

  /** With reactions identified by their identifiers, a reaction that only
      consumes allow-listed metabolites has no row in the table. */
  lemma ReactantOnlyAbsentFromTable(keep: seq<string>, m: Model, sol: Fluxes, r: Reaction)
    requires IdsIdentify(m.reactions)
    requires r in m.reactions && Touches(keep, r)
    requires forall i :: 0 <= i < |r.mets| && r.mets[i].0.id in keep ==> r.mets[i].1 <= 0.0
    ensures Tabulate(keep, m, sol).Success?
    ensures forall row :: row in Tabulate(keep, m, sol).value ==> row.draft.reactionId != r.id
  {
    TableRowsFromModel(keep, m, sol);
    ReactantOnlyDropped(keep, m.reactions, r);
    forall row | row in Tabulate(keep, m, sol).value
      ensures row.draft.reactionId != r.id
    {
      var rx :| rx in m.reactions && Touches(keep, rx) && row.draft == DraftOf(keep, rx);
    }
  }
}
