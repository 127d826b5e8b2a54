/** The reaction selector shared by the tabulator and the network builder:
    the allow-list of glycosphingolipid metabolites and the rule that a
    reaction is of interest when it involves one of them. The operations take
    the allow-list as a parameter; the two entry points pass the one
    hard-coded list below. */
module Selection {
  import opened Cobra
  import Seqs

  /** The 27 glycosphingolipid metabolite identifiers of interest, in the
      order the source lists them (GA1, GA2, GD1a, GD1alpha, GD1b, GD1c, GD2,
      GD3, GB5, GB4, GB3, GM1, GM1b, GM2, GM3, GQ1b, GQ1c, GT1a, GT1b, GT1c,
      GT2, GT3, LacCer pool, LC3, LC4, paragloboside, sialylparagloboside). */
  const KeepMetabolites: seq<string> := [
    "MAM01904g", "MAM01905g", "MAM01941g", "MAM01942g", "MAM01943g",
    "MAM01945g", "MAM01946g", "MAM01947g", "MAM01912g", "MAM01959g",
    "MAM01960g", "MAM02008g", "MAM02010g", "MAM02011g", "MAM02015g",
    "MAM02023g", "MAM02025g", "MAM02028g", "MAM02030g", "MAM02031g",
    "MAM02032g", "MAM02033g", "MAM02328g", "MAM02346g", "MAM02347g",
    "MAM02330g", "MAM02904g"
  ]

  /** Whether some metabolite of the reaction, in any role and with any
      coefficient, is on the allow-list. A reaction with no entries, or an
      empty allow-list, touches nothing. */
  predicate Touches(keep: seq<string>, r: Reaction)
    ensures Touches(keep, r) ==> |r.mets| > 0 && |keep| > 0
  {
    exists i :: 0 <= i < |r.mets| && r.mets[i].0.id in keep
  }

  /** Touching, stated over the entries rather than their positions. */
  lemma TouchesIff(keep: seq<string>, r: Reaction)
    ensures Touches(keep, r) <==> exists e :: e in r.mets && e.0.id in keep
  {
    if exists e :: e in r.mets && e.0.id in keep {
      var e :| e in r.mets && e.0.id in keep;
      var i :| 0 <= i < |r.mets| && r.mets[i] == e;
    }
  }

  /** The reactions of interest, in the model's order. */
  function SelectReactions(keep: seq<string>, rs: seq<Reaction>): (sel: seq<Reaction>)
    ensures forall r :: r in sel <==> r in rs && exists i :: 0 <= i < |r.mets| && r.mets[i].0.id in keep
    ensures forall r :: multiset(sel)[r] == if Touches(keep, r) then multiset(rs)[r] else 0
  {
    if |rs| == 0 then []
    else
      assert rs == [rs[0]] + rs[1..];
      (if Touches(keep, rs[0]) then [rs[0]] else []) + SelectReactions(keep, rs[1..])
  }

  /** Selecting from a split model gives the two selections one after the
      other: the selection keeps the model's reaction order. */
  lemma {:induction false} SelectionKeepsOrder(keep: seq<string>, a: seq<Reaction>, b: seq<Reaction>)
    ensures SelectReactions(keep, a + b) == SelectReactions(keep, a) + SelectReactions(keep, b)
  {
    if |a| == 0 {
      assert a + b == b;
    } else {
      assert (a + b)[1..] == a[1..] + b;
      SelectionKeepsOrder(keep, a[1..], b);
    }
  }

  /** The selection is empty exactly when no reaction of the model involves
      an allow-listed metabolite. */
  lemma SelectionEmptyIff(keep: seq<string>, rs: seq<Reaction>)
    ensures |SelectReactions(keep, rs)| == 0 <==> forall r :: r in rs ==> !Touches(keep, r)
  {
    if |SelectReactions(keep, rs)| == 0 {
      forall r | r in rs ensures !Touches(keep, r) {
        assert r !in SelectReactions(keep, rs);
      }
    } else {
      assert SelectReactions(keep, rs)[0] in SelectReactions(keep, rs);
    }
  }

  /** When every reaction touches the allow-list, the selection is the whole
      model in its own order. */
  lemma {:induction false} SelectAllTouching(keep: seq<string>, rs: seq<Reaction>)
    requires forall r :: r in rs ==> Touches(keep, r)
    ensures SelectReactions(keep, rs) == rs
  {
    if |rs| > 0 {
      var rest := rs[1..];
      assert Touches(keep, rs[0]) by { assert rs[0] in rs; }
      forall r | r in rest ensures Touches(keep, r) {
        assert r in rs;
      }
      SelectAllTouching(keep, rest);
      assert SelectReactions(keep, rs) == [rs[0]] + SelectReactions(keep, rest);
      assert rs == [rs[0]] + rest;
    }
  }
}
