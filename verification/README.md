# pyGSLModel result analysis, modelled in Dafny

pyGSLModel simulates glycosphingolipid (GSL) metabolism with a
constraint-based metabolic model. The modelled part reads a simulated flux
solution back. It has three pieces, all written in
`pyGSLModel/src/pyGSLModel/model_analysis.py`:

- **Reaction selection.** A reaction is of interest when any of its
  metabolites is on a fixed allow-list of 27 GSL metabolite identifiers. The
  role and the coefficient of that metabolite do not matter.
- **`tabulate_model_results`.** For each selected reaction the table holds:
  - its reactants and its products as `"<id> (<name>)"` lists, split by the
    sign of the coefficient;
  - its key products, meaning the allow-listed products by display name;
  - its genes.

  Rows with an empty key-product cell are dropped. The remaining rows get:
  - the reaction's flux;
  - that flux as a percentage of the table's flux total.

  The table is sorted by flux, largest first.
- **The graph part of `visualise_flux_network`.** A directed bipartite graph
  with:
  - one node for each allow-listed metabolite known to the model, at size 20;
  - one node for each selected reaction, labelled by its genes and sized 10 to
    50 by `|flux| / max|flux|`;
  - for each allow-listed metabolite of a selected reaction, one edge. It runs
    from the metabolite to the reaction when consumed and from the reaction
    to the metabolite otherwise. Its weight is 1 to 41 on the same scale, and
    it carries the flux as its title.

The source writes the allow-list out twice, once in each function. Here it is
one constant, `Selection.KeepMetabolites`. The selector, the tabulator and the
graph builder take the allow-list as a parameter `keep`, and the two entry
points `Tabulation.TabulateModelResults` and
`FluxNetwork.VisualiseFluxNetwork` pass that constant.

Modules:

- `Results`: `Option` and `Result`, used for the exceptions the source lets
  escape.
- `Seqs`: an order-preserving filter.
- `Text`: Python's `str.join`.
- `Cobra`: the library objects the code reads (metabolite, reaction, model,
  flux solution).
- `Selection`: the allow-list and the reaction selection.
- `FluxOrder`: sorting descending with missing values last.
- `Tabulation`: the results table.
- `FluxNetwork`: the graph.
- `Scenarios`: a concrete three-reaction model. Its table and graph are worked
  out in full.

Library behaviour the model fixes:

- A flux solution is a map from reaction identifier to flux. A missing
  identifier is `None` in the table, which corresponds to pandas' NaN. In the
  graph it is 0.0, as `fluxes.get(id, 0.0)` gives.
- `Series.sum()` skips NaN. The total the relative fluxes are divided by is
  therefore the sum of the fluxes that are present.
- A relative flux is `None` when it would not be a finite number: the flux is
  missing, or the total is zero.
- The graph is two maps, for nodes and for edges. networkx merges the
  attributes of a re-added node or edge into the ones it already has. Every
  `add_node` and `add_edge` call here sets every attribute key, so the merge
  amounts to replacing the attributes, and the model replaces them. Adding an edge whose endpoint
  is missing creates that endpoint without attributes (`Bare`), as the graph
  library does.
- The source leaves two exceptions unhandled. Both are modelled as `Failure`:
  - When no reaction touches the allow-list, `tabulate_model_results` builds
    a frame with no columns. Filtering it on `"Key Product"` raises
    `KeyError`, modelled as `MissingColumn("Key Product")`.
  - In the same case, `max` of an empty sequence in `visualise_flux_network`
    raises `ValueError`, modelled as `EmptyMax`.
- Two behaviours of the code are easy to miss:
  - A row is kept when the *joined* key-product string is non-empty
    (model_analysis.py:78). A
    reaction whose single allow-listed product has an empty display name is
    therefore dropped, even though it has a key product
    (`Tabulation.RetainedIff`).
  - An allow-listed metabolite that the model does not know still gets
    edges, and a bare node, when a selected reaction involves it
    (model_analysis.py:186-198). It gets no
    node only when no selected reaction involves it
    (`FluxNetwork.FluxNetworkNodeIds`, `FluxNetwork.FluxNetworkNodeKinds`).
    In a consistent model this cannot happen
    (`FluxNetwork.FluxNetworkNoBareNodes`).

## Model

| member | source | states |
|---|---|---|
| Selection.Touches | pyGSLModel/src/pyGSLModel/model_analysis.py:55 | a reaction that touches the allow-list has an entry, and the allow-list is not empty |
| Selection.TouchesIff | pyGSLModel/src/pyGSLModel/model_analysis.py:55 | a reaction touches the allow-list exactly when one of its entries has an allow-listed identifier |
| Selection.SelectReactions | pyGSLModel/src/pyGSLModel/model_analysis.py:52-56 | a reaction is selected exactly when it is in the model and one of its entries, in any role, has an allow-listed identifier; each selected reaction occurs as often as in the model |
| Selection.SelectionKeepsOrder | pyGSLModel/src/pyGSLModel/model_analysis.py:155-158 | selecting from a concatenation concatenates the selections, so the model's reaction order is kept |
| Selection.SelectAllTouching | pyGSLModel/src/pyGSLModel/model_analysis.py:52-56 | when every reaction touches the allow-list, the selection is the whole model in order |
| Selection.SelectionEmptyIff | pyGSLModel/src/pyGSLModel/model_analysis.py:155-158 | the selection is empty exactly when no reaction of the model touches the allow-list |
| Cobra.GetById | pyGSLModel/src/pyGSLModel/model_analysis.py:61 | a found reaction is in the model with that identifier; nothing is found exactly when no reaction has it |
| Cobra.GetByIdOfMember | pyGSLModel/src/pyGSLModel/model_analysis.py:52-61 | with reactions identified by identifier, looking up a selected reaction's identifier returns that reaction |
| Seqs.Filter | pyGSLModel/src/pyGSLModel/model_analysis.py:62-65 | the result holds exactly the accepted elements of the input and is no longer than it |
| Seqs.FilterMultiset | pyGSLModel/src/pyGSLModel/model_analysis.py:78 | filtering keeps every occurrence of an accepted element and none of a rejected one |
| Seqs.FilterConcat | pyGSLModel/src/pyGSLModel/model_analysis.py:78 | filtering distributes over concatenation, so rows keep their relative order |
| Text.Join | pyGSLModel/src/pyGSLModel/model_analysis.py:72-75 | joining nothing gives the empty string and joining one part gives that part; the first part is a prefix; two or more parts leave room for a separator |
| Text.JoinEmptyIff | pyGSLModel/src/pyGSLModel/model_analysis.py:74 | with a non-empty separator, a join is empty exactly when there are no parts or the one part is empty |
| Text.JoinSnoc | pyGSLModel/src/pyGSLModel/model_analysis.py:72-75 | appending a part appends the separator and that part, as `str.join` reads left to right |
| Tabulation.Formatted | pyGSLModel/src/pyGSLModel/model_analysis.py:62-65 | one item per entry, in entry order, and item i is entry i's identifier, `" ("`, its display name and `")"` |
| Tabulation.FormatMetParts | pyGSLModel/src/pyGSLModel/model_analysis.py:62-65 | an item has the identifier as prefix, `" ("` after it, the display name up to the last character, and `")"` last, so both can be read back |
| Tabulation.SignPartitionCounts | pyGSLModel/src/pyGSLModel/model_analysis.py:62-65 | the negative, positive and zero coefficient entries together account for every entry |
| Tabulation.SignPartition | pyGSLModel/src/pyGSLModel/model_analysis.py:62-65 | reactants are exactly the negative-coefficient entries, products exactly the positive ones, and a zero-coefficient entry is in neither |
| Tabulation.ReactantsProductsDisjoint | pyGSLModel/src/pyGSLModel/model_analysis.py:62-65 | when a reaction lists each metabolite once, no metabolite is both a reactant and a product |
| Tabulation.KeyProductNames | pyGSLModel/src/pyGSLModel/model_analysis.py:66-68 | a name is a key product exactly when some entry with a positive coefficient and an allow-listed identifier has that name; a one-entry list yields its name exactly when the entry is an allow-listed product |
| Tabulation.KeyProductNamesConcat | pyGSLModel/src/pyGSLModel/model_analysis.py:66-68 | the key products of concatenated entries are those of each part in order, which with the one-entry case fixes the order and multiplicity of the names |
| Tabulation.DraftOf | pyGSLModel/src/pyGSLModel/model_analysis.py:59-76 | the row keeps the reaction's identifier; its genes cell is empty exactly when there are no genes or the one gene identifier is empty |
| Tabulation.SideCellEmptyIff | pyGSLModel/src/pyGSLModel/model_analysis.py:62-65 | a printed side is empty exactly when no entry is on that side |
| Tabulation.DraftSideCells | pyGSLModel/src/pyGSLModel/model_analysis.py:62-73 | the reactants cell is empty exactly when no coefficient is negative, the products cell exactly when none is positive |
| Tabulation.Drafts | pyGSLModel/src/pyGSLModel/model_analysis.py:59-76 | one drafted row per selected reaction, in selection order |
| Tabulation.RetainedIff | pyGSLModel/src/pyGSLModel/model_analysis.py:74-78 | a row survives the filter exactly when it has two or more key products, or one with a non-empty name |
| Tabulation.RetainedHasKeyProduct | pyGSLModel/src/pyGSLModel/model_analysis.py:66-78 | a retained row's reaction produces an allow-listed metabolite; a reaction producing one with a non-empty name is retained |
| Tabulation.ReactantOnlyDropped | pyGSLModel/src/pyGSLModel/model_analysis.py:52-78 | a reaction that touches the allow-list without producing an allow-listed metabolite is selected and then dropped |
| Tabulation.Lookup | pyGSLModel/src/pyGSLModel/model_analysis.py:82-83 | a flux is found exactly when the solution has the identifier, and it is the solution's value |
| Tabulation.FluxTotal | pyGSLModel/src/pyGSLModel/model_analysis.py:84 | drafts none of whose identifiers the solution has give a total of zero |
| Tabulation.FluxTotalSign | pyGSLModel/src/pyGSLModel/model_analysis.py:84 | present fluxes all non-negative (all non-positive) give a non-negative (non-positive) total |
| Tabulation.Relative | pyGSLModel/src/pyGSLModel/model_analysis.py:84 | a relative flux exists exactly when the flux is present and the total is not zero |
| Tabulation.RelativeScalesBack | pyGSLModel/src/pyGSLModel/model_analysis.py:84 | a relative flux times the total is the flux times 100 |
| Tabulation.Attach | pyGSLModel/src/pyGSLModel/model_analysis.py:82-84 | each row keeps its draft and position and gets its looked-up flux and its share of the given total |
| Tabulation.AttachFluxTotal | pyGSLModel/src/pyGSLModel/model_analysis.py:84 | the flux column's NaN-skipping sum is the total the shares are taken of |
| Tabulation.AttachRelativeTotal | pyGSLModel/src/pyGSLModel/model_analysis.py:84 | the relative-flux column sums to the flux total as a percentage of the divisor |
| Tabulation.AttachFlux | pyGSLModel/src/pyGSLModel/model_analysis.py:82-84 | each row keeps its draft and position, gets its reaction's flux (missing when the solution lacks it), and gets that flux as a percentage of the sum of the present fluxes |
| Tabulation.RelativeFluxSumsTo100 | pyGSLModel/src/pyGSLModel/model_analysis.py:84 | whenever the present fluxes do not sum to zero, the relative fluxes sum to exactly 100 |
| Tabulation.Tabulate | pyGSLModel/src/pyGSLModel/model_analysis.py:51-86 | KeyError exactly when no reaction touches the allow-list; otherwise the rows are the retained drafts of the selected reactions with fluxes attached, reordered so that flux never increases and missing fluxes come last |
| Tabulation.TabulateModelResults | pyGSLModel/src/pyGSLModel/model_analysis.py:12-86 | with the hard-coded allow-list: fails exactly when no reaction touches it; otherwise sorted by descending flux |
| Tabulation.AttachedRowOrigin | pyGSLModel/src/pyGSLModel/model_analysis.py:59-83 | a row of the attached table is a retained draft of a selected model reaction with that reaction's flux |
| Tabulation.TableRowsFromModel | pyGSLModel/src/pyGSLModel/model_analysis.py:59-85 | every row of the table is a retained row of a selected model reaction with its flux from the solution |
| Tabulation.TableRelativeFlux | pyGSLModel/src/pyGSLModel/model_analysis.py:83-85 | after sorting, each row's relative flux is still its share of the table's flux total, and the shares sum to 100 whenever that total is not zero |
| Tabulation.ReactantOnlyAbsentFromTable | pyGSLModel/src/pyGSLModel/model_analysis.py:52-85 | with reactions identified by identifier, a reaction that only consumes allow-listed metabolites has no row in the table |
| FluxOrder.AtLeastTrans | pyGSLModel/src/pyGSLModel/model_analysis.py:85 | the descending, missing-last ranking is transitive |
| FluxOrder.ConsSorted | pyGSLModel/src/pyGSLModel/model_analysis.py:85 | an element ranking at least as high as a sorted sequence's head can go in front of it |
| FluxOrder.ConsHead | pyGSLModel/src/pyGSLModel/model_analysis.py:85 | a head ranking at least as high as every element of a sorted sequence can go in front of it |
| FluxOrder.Insert | pyGSLModel/src/pyGSLModel/model_analysis.py:85 | inserting into a descending, missing-last sequence keeps it so and adds exactly the one element |
| FluxOrder.SortDesc | pyGSLModel/src/pyGSLModel/model_analysis.py:85 | the result is ordered by descending flux with missing values last, and is a permutation of the input |
| FluxOrder.SumPresentInsert | pyGSLModel/src/pyGSLModel/model_analysis.py:84-85 | inserting a row adds its value to any NaN-skipping column sum |
| FluxOrder.SumPresentSort | pyGSLModel/src/pyGSLModel/model_analysis.py:84-85 | sorting leaves every NaN-skipping column sum unchanged |
| FluxNetwork.AddEdge | pyGSLModel/src/pyGSLModel/model_analysis.py:193-198 | adding an edge sets its attributes, creates missing endpoints as bare nodes and leaves every existing node as it was |
| FluxNetwork.AddMetaboliteNodes | pyGSLModel/src/pyGSLModel/model_analysis.py:163-170 | an identifier gets a node exactly when it is listed and known to the model, labelled by the display name at size 20; other nodes and all edges are untouched |
| FluxNetwork.MetaboliteLayer | pyGSLModel/src/pyGSLModel/model_analysis.py:161-170 | the first stage has no edges and one size-20 metabolite node per allow-listed identifier the model knows |
| FluxNetwork.FluxOr0 | pyGSLModel/src/pyGSLModel/model_analysis.py:173-175 | the solution's flux when it has the identifier, 0.0 otherwise |
| FluxNetwork.ScaledSize | pyGSLModel/src/pyGSLModel/model_analysis.py:183 | size 10 exactly for zero flux, and 50 at the normaliser |
| FluxNetwork.ScaledWeight | pyGSLModel/src/pyGSLModel/model_analysis.py:196 | weight 1 exactly for zero flux, and 41 at the normaliser |
| FluxNetwork.EdgeKey | pyGSLModel/src/pyGSLModel/model_analysis.py:189-192 | the edge joins the reaction and the metabolite; the reaction is the target when the metabolite is consumed and the source otherwise |
| FluxNetwork.Abs | pyGSLModel/src/pyGSLModel/model_analysis.py:176 | the magnitude is non-negative and equals the value or its negation |
| FluxNetwork.PeakAbsFlux | pyGSLModel/src/pyGSLModel/model_analysis.py:173 | the result bounds every reaction's flux magnitude and is attained by one of them |
| FluxNetwork.MaxFlux | pyGSLModel/src/pyGSLModel/model_analysis.py:173 | fails exactly on an empty selection; otherwise positive and bounds every magnitude; 1.0 when all fluxes are zero; otherwise attained |
| FluxNetwork.NodeLabel | pyGSLModel/src/pyGSLModel/model_analysis.py:180 | the reaction's identifier when it has no genes or its one gene is empty; otherwise its genes joined by commas |
| FluxNetwork.AddReactionEdges | pyGSLModel/src/pyGSLModel/model_analysis.py:186-198 | edges are added for exactly the allow-listed entries, all with the given attributes; new endpoints are bare nodes and nothing else changes |
| FluxNetwork.AddReaction | pyGSLModel/src/pyGSLModel/model_analysis.py:175-198 | the reaction's node gets its label, colour and scaled size; its edges get its scaled weight and flux; nothing else changes |
| FluxNetwork.AddReactions | pyGSLModel/src/pyGSLModel/model_analysis.py:174-198 | the nodes become the old ones plus the reactions plus their allow-listed metabolites; the edges become the old ones plus the reactions' edges; every reaction ends as a reaction node |
| FluxNetwork.BuildFluxNetwork | pyGSLModel/src/pyGSLModel/model_analysis.py:155-198 | fails, on `max` of nothing, exactly when no reaction touches the allow-list |
| FluxNetwork.VisualiseFluxNetwork | pyGSLModel/src/pyGSLModel/model_analysis.py:109-198 | with the hard-coded allow-list: fails exactly when no reaction touches it |
| FluxNetwork.KeptIdsOfIff | pyGSLModel/src/pyGSLModel/model_analysis.py:186-188 | an identifier is a reaction's allow-listed endpoint exactly when it is allow-listed and some entry has it |
| FluxNetwork.EdgeKeysOfIff | pyGSLModel/src/pyGSLModel/model_analysis.py:186-192 | a reaction contributes exactly one edge per allow-listed entry, oriented by the coefficient's sign |
| FluxNetwork.RxnIdsIff | pyGSLModel/src/pyGSLModel/model_analysis.py:178-179 | the reaction identifiers added are exactly those of the reactions |
| FluxNetwork.KeptRefsIff | pyGSLModel/src/pyGSLModel/model_analysis.py:186-188 | the allow-listed endpoints of a list of reactions are the union of each reaction's |
| FluxNetwork.EdgeKeysIff | pyGSLModel/src/pyGSLModel/model_analysis.py:186-192 | the edges of a list of reactions are the union of each reaction's |
| FluxNetwork.KeptRefsEntries | pyGSLModel/src/pyGSLModel/model_analysis.py:186-188 | an identifier is an allow-listed endpoint exactly when it is allow-listed and some entry of some reaction has it |
| FluxNetwork.EdgeKeysTouchKeep | pyGSLModel/src/pyGSLModel/model_analysis.py:186-192 | every edge a reaction contributes has an allow-listed end |
| FluxNetwork.AddReactionsRxnNodes | pyGSLModel/src/pyGSLModel/model_analysis.py:174-184 | with reactions identified by identifier, each reaction's final node carries its own label, colour and size |
| FluxNetwork.AddReactionsEdgesOwned | pyGSLModel/src/pyGSLModel/model_analysis.py:186-198 | when no reaction identifier is allow-listed, every edge carries the weight and flux of the reaction it belongs to |
| FluxNetwork.AddReactionsEdgeOf | pyGSLModel/src/pyGSLModel/model_analysis.py:186-198 | when no reaction identifier is allow-listed, an added reaction's edge for an allow-listed entry exists and carries that reaction's weight and flux |
| FluxNetwork.AddReactionsMetNodes | pyGSLModel/src/pyGSLModel/model_analysis.py:174-198 | the reaction stage adds no metabolite nodes; those present are unchanged |
| FluxNetwork.AddReactionsBareNodes | pyGSLModel/src/pyGSLModel/model_analysis.py:186-198 | a bare node after the reaction stage is new, allow-listed and involved in one of the reactions |
| FluxNetwork.AddReactionsWithin | pyGSLModel/src/pyGSLModel/model_analysis.py:178-198 | reaction sizes and edge weights within given ranges stay within them after the reaction stage |
| FluxNetwork.ScaledRanges | pyGSLModel/src/pyGSLModel/model_analysis.py:183-196 | a magnitude no larger than the normaliser gives a size in [10, 50] and a weight in [1, 41] |
| FluxNetwork.AddReactionsNodeKinds | pyGSLModel/src/pyGSLModel/model_analysis.py:174-198 | after the reaction stage each node is a reaction node, an untouched earlier node, or a bare node for a referenced allow-listed metabolite |
| FluxNetwork.FluxNetworkNodeIds | pyGSLModel/src/pyGSLModel/model_analysis.py:155-192 | the nodes are exactly the known allow-listed metabolites, the selected reactions, and the allow-listed metabolites those reactions involve |
| FluxNetwork.FluxNetworkNodeKinds | pyGSLModel/src/pyGSLModel/model_analysis.py:163-198 | metabolite nodes have size 20; a bare node is an allow-listed metabolite that the model does not know and that a selected reaction involves |
| FluxNetwork.FluxNetworkNoBareNodes | pyGSLModel/src/pyGSLModel/model_analysis.py:163-198 | when every involved metabolite is the model's, every node has attributes |
| FluxNetwork.FluxNetworkMetaboliteNodes | pyGSLModel/src/pyGSLModel/model_analysis.py:163-170 | a known allow-listed metabolite whose identifier is not also a selected reaction's keeps its display name, colour and size 20 |
| FluxNetwork.FluxNetworkReactionNodes | pyGSLModel/src/pyGSLModel/model_analysis.py:173-184 | each selected reaction's node has its gene label, the reaction colour and size `|flux| / max * 40 + 10` |
| FluxNetwork.FluxNetworkEdges | pyGSLModel/src/pyGSLModel/model_analysis.py:186-198 | the edges are exactly one per allow-listed entry of a selected reaction, metabolite to reaction when consumed and reaction to metabolite otherwise |
| FluxNetwork.FluxNetworkEdgesTouchKeep | pyGSLModel/src/pyGSLModel/model_analysis.py:186-188 | every edge has an allow-listed metabolite at one end |
| FluxNetwork.FluxNetworkEdgeWeights | pyGSLModel/src/pyGSLModel/model_analysis.py:193-198 | when no selected reaction's identifier is allow-listed, each edge has weight `|flux| / max * 40 + 1` and the flux of its reaction |
| FluxNetwork.FluxNetworkBounds | pyGSLModel/src/pyGSLModel/model_analysis.py:173-198 | every reaction node's size is in [10, 50] and every edge weight in [1, 41] |
| FluxNetwork.FluxNetworkAllZero | pyGSLModel/src/pyGSLModel/model_analysis.py:173-198 | when every selected reaction has zero flux, every reaction node has size 10 and every edge weight 1 |
| FluxNetwork.FluxNetworkPeakSize | pyGSLModel/src/pyGSLModel/model_analysis.py:173-184 | when some selected reaction carries flux, one of largest magnitude is drawn at size 50 |
| Scenarios.SampleListing | pyGSLModel/src/pyGSLModel/model_analysis.py:21-49 | the hard-coded allow-list meets the sample's requirements: it lists GM3, GM2 and the LacCer pool, and neither the fourth metabolite nor a reaction identifier |
| Scenarios.KeepListsSample | pyGSLModel/src/pyGSLModel/model_analysis.py:35-44 | the allow-list holds GM3 (MAM02015g), GM2 (MAM02011g) and the LacCer pool (MAM02328g) |
| Scenarios.KeepShape | pyGSLModel/src/pyGSLModel/model_analysis.py:21-49 | every allow-listed identifier is nine characters of the form `M…g` |
| Scenarios.SampleSelection | pyGSLModel/src/pyGSLModel/model_analysis.py:52-56 | all three sample reactions are selected, in order |
| Scenarios.SampleTouches | pyGSLModel/src/pyGSLModel/model_analysis.py:52-56 | each sample reaction involves an allow-listed metabolite |
| Scenarios.SampleKeyProducts | pyGSLModel/src/pyGSLModel/model_analysis.py:66-74 | R1's key-product cell is empty, R2's is "GM3" and R3's "GM2" |
| Scenarios.KeyProductsOfPair | pyGSLModel/src/pyGSLModel/model_analysis.py:66-68 | the key products of a two-entry reaction, entry by entry |
| Scenarios.SampleRetained | pyGSLModel/src/pyGSLModel/model_analysis.py:78 | only R2's and R3's rows survive the filter |
| Scenarios.FilterFirstDropped | pyGSLModel/src/pyGSLModel/model_analysis.py:78 | of three rows where only the first has an empty key-product cell, the other two remain, in order |
| Scenarios.DraftsOfThree | pyGSLModel/src/pyGSLModel/model_analysis.py:59-76 | three selected reactions give three drafted rows in order |
| Scenarios.RetainedOne | pyGSLModel/src/pyGSLModel/model_analysis.py:78 | a single row is kept exactly when its key-product cell is non-empty |
| Scenarios.SampleAttached | pyGSLModel/src/pyGSLModel/model_analysis.py:82-84 | fluxes 5 and 15 become 25% and 75% |
| Scenarios.SampleSorted | pyGSLModel/src/pyGSLModel/model_analysis.py:85 | the rows with fluxes 5 and 15 are ordered 15 first |
| Scenarios.SampleTableFor | pyGSLModel/src/pyGSLModel/model_analysis.py:51-86 | the sample's table is [R3 at 15 and 75%, R2 at 5 and 25%] |
| Scenarios.SampleTable | pyGSLModel/src/pyGSLModel/model_analysis.py:12-86 | the same with the hard-coded allow-list |
| Scenarios.SamplePeak | pyGSLModel/src/pyGSLModel/model_analysis.py:173 | the sample's normaliser is 15 |
| Scenarios.SampleNetworkStages | pyGSLModel/src/pyGSLModel/model_analysis.py:155-198 | the sample's graph is the reaction stage over all three reactions with normaliser 15 |
| Scenarios.SampleNetworkNodes | pyGSLModel/src/pyGSLModel/model_analysis.py:178-184 | R3's node is labelled "R3" at size 50 and R2's "ST3GAL5" at size 5/15·40+10 |
| Scenarios.SampleStageNodes | pyGSLModel/src/pyGSLModel/model_analysis.py:178-184 | the same for the reaction stage from any starting graph |
| Scenarios.SampleRxnNodes | pyGSLModel/src/pyGSLModel/model_analysis.py:178-184 | R3's and R2's node attributes under normaliser 15 |
| Scenarios.SampleNetworkEdge | pyGSLModel/src/pyGSLModel/model_analysis.py:186-198 | GM3 feeds R3 over an edge of weight 41 titled with flux 15 |
| Scenarios.SampleStageEdge | pyGSLModel/src/pyGSLModel/model_analysis.py:186-198 | the same for the reaction stage from a graph without edges |
| Scenarios.SampleNetworkSkipsOther | pyGSLModel/src/pyGSLModel/model_analysis.py:186-188 | R1's product outside the allow-list gets neither a node nor an edge |
| Scenarios.SampleStageSkipsOther | pyGSLModel/src/pyGSLModel/model_analysis.py:186-188 | the same for the reaction stage from a graph without edges or that node |

## Left out

- `plot_model_results` (model_analysis.py:89-107) is left out. It only draws bar charts of columns the table already holds.
- The rendering half of `visualise_flux_network` (model_analysis.py:200-213) is left out: the pyvis network, its force-directed layout constants, writing the HTML file and the confirmation message. These are I/O with no logic of their own. The height, width and file path parameters go with them, and `Style` keeps only the two colours.
- The `type` node attribute ("met"/"rxn") is represented by the `MetNode`/`RxnNode` constructors. The edge title `f"flux={flux:.3g}"` is represented by the unformatted flux; three-significant-digit formatting is left out.
- Floating point is left out. Fluxes are exact reals, so "sums to 100" holds exactly rather than within rounding. NaN and infinity become `None`. `float(...)` on a flux is the identity.
- Tabulation.Tabulate: the unstable sort is not modelled in full. pandas' `sort_values` uses an unstable quicksort, so the order of rows with equal fluxes is unspecified. The model fixes one order, keeping the input order among equals, but its contract states only what pandas guarantees: descending order, missing values last, and a permutation.
- FluxNetwork.PeakAbsFlux: when several reactions tie for the largest magnitude, the model does not say which one attains it. Python's `max` returns a number, so the tie is invisible.
- Tabulation.TabulateModelResults: the frame is indexed by reaction identifier and then reset. The model keeps the identifier as the `reactionId` field of each row instead.
- The lookup `model.reactions.get_by_id` (model_analysis.py:61) is modelled by `Cobra.GetById`. `Cobra.GetByIdOfMember` shows it returns the selected reaction itself, so the tabulator uses the selected reactions directly.
- `model.metabolites` is modelled as a map from identifier to metabolite. A reaction's `metabolites` dictionary is a sequence of (metabolite, coefficient) entries in iteration order. `DistinctMetabolites` and `IdsIdentify` state the library's uniqueness guarantees, which the lemmas that need them require.
- The library code that builds models and solutions (`model_preparation`, cobra's optimiser) is not part of this model. Models and flux solutions are inputs.
- `setup.py` is packaging only.
- The order of gene identifiers is not modelled faithfully. `rxn.genes` is an unordered frozenset in the library, so the order of the Genes cell (model_analysis.py:69) and of a reaction node's label (model_analysis.py:180) is arbitrary. `genes: seq<string>` fixes one order.
- The colour defaults `#F6A6B2` and `#AED6F1` of `visualise_flux_network` (model_analysis.py:109) are not modelled. `Style` takes both colours as parameters.
