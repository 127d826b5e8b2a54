/** The read-only objects the pipeline receives from the metabolic-modelling
    library: metabolites, reactions, the model holding them, and the flux
    solution. Only the attributes the pipeline reads are kept. */
module Cobra {
  import opened Results

  /** A chemical species: model-specific identifier and display name. */
  datatype Metabolite = Metabolite(id: string, name: string)

  /** One stoichiometric entry of a reaction: a metabolite and its
      coefficient (negative when consumed, positive when produced). */
  type Entry = (Metabolite, real)

  /** A reaction: identifier, its metabolite-to-coefficient entries in the
      library's iteration order, and the identifiers of its genes. */
  datatype Reaction = Reaction(id: string, mets: seq<Entry>, genes: seq<string>)

  /** A model: its reactions in iteration order, and its metabolites indexed
      by identifier. */
  datatype Model = Model(reactions: seq<Reaction>, metabolites: map<string, Metabolite>)

  /** A flux solution: reaction identifier to flux (mmol/gDW/hr). */
  type Fluxes = map<string, real>

  /** The library indexes reactions by identifier, so no two distinct
      reactions share one. */
  ghost predicate IdsIdentify(rs: seq<Reaction>) {
    forall a, b :: a in rs && b in rs && a.id == b.id ==> a == b
  }

  /** A reaction's entries are keyed by metabolite, so no identifier occurs
      twice among them. */
  ghost predicate DistinctMetabolites(r: Reaction) {
    forall i, j :: 0 <= i < j < |r.mets| ==> r.mets[i].0.id != r.mets[j].0.id
  }

  /** `model.reactions.get_by_id(id)`: the first reaction with that
      identifier, if any. */
  function GetById(rs: seq<Reaction>, id: string): (o: Option<Reaction>)
    ensures o.Some? ==> o.value in rs && o.value.id == id
    ensures o.None? <==> forall r :: r in rs ==> r.id != id
  {
    if |rs| == 0 then None
    else if rs[0].id == id then Some(rs[0])
    else GetById(rs[1..], id)
  }

  /** Looking up the identifier of a model reaction gives back that very
      reaction, which is what lets the tabulator collect identifiers first and
      fetch the reactions afterwards. */
  lemma GetByIdOfMember(rs: seq<Reaction>, r: Reaction)
    requires IdsIdentify(rs)
    requires r in rs
    ensures GetById(rs, r.id) == Some(r)
  {
  }
}
