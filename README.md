# ctherm-gem curation scripts, modelled in Dafny

This project models the deterministic core of the scripts that build and curate the
genome-scale metabolic model of *Clostridium thermocellum* (iCBI655 and its successors):

- configuring a model for an experiment: medium, secretion, biomass objective,
  GAM/NGAM, measured flux bounds, gene knockouts;
- the metabolite charge and formula arithmetic;
- molecular weights and biomass normalisation;
- the repair of KBase bounds and the ModelSEED-to-BiGG renaming;
- isomer grouping and the stoichiometry corrections;
- the metadata and mass-balance triage, and the application of balance corrections;
- the nomenclature upgrade and the curation table;
- the curation-row dispatch and the gene edits of the basic model;
- the proteomics tallies;
- the model-comparison table and the coexpression network.

The cobra library's model objects are represented in the `Cobra` module. A `Model` is a
class whose reactions, metabolites and genes are sequences of records, reassigned by the
scripts' loops. Bounds, stoichiometry, notes and annotations are fields of those records.
The library's mass-balance check is defined there as the coefficient-weighted sum of
elemental compositions, plus the charge.

The scripts work in one of two ways, and the model follows each:

- Scripts that change the model in loops are `method`s over that class. Each is proved
  against a function that states the new state, with lemmas about that function.
- Pure string and arithmetic helpers are functions, with lemmas.

Files read from disk and results computed by the solver are parameters: CSV rows,
directory listings, gene maps, flux-variability and deletion results. An exception the
scripts raise becomes an `Err` or `Option` value, together with the state the loop had
reached when it was raised.

Python's `is` comparisons on strings are modelled as equality everywhere except
`gene.id is 'Unknown'` in tools/ms2bigg.py; see Findings.

## Model

| member | source | states |
|---|---|---|
| Settings.GetGeneMap | settings.py:18-27 | the map is the dict of every row's (old tag, tag) pair, or (tag, old tag) pair, assigned in order; an unknown order gives an empty map |
| Settings.OldToNewKeys | settings.py:23-24 | with 'old_to_new' a key is present exactly when some row carries it as old locus tag |
| Settings.OldToNewMap | settings.py:23-24 | each old tag is mapped to the locus tag of the last row that carries it |
| Settings.NewToOldKeys | settings.py:25-26 | with 'new_to_old' a key is present exactly when some row carries it as locus tag |
| Settings.NewToOldMap | settings.py:25-26 | each locus tag is mapped to the old tag of the last row that carries it |
| ConfModel.ApplyEditsError | tools/conf_model.py:208-210 | a sequence of bound assignments by id fails with the KeyError of the first id that names no reaction, and only then |
| ConfModel.ApplyEditsAt | tools/conf_model.py:208-210 | every reaction ends with the edits naming it applied in order, up to the first missing id |
| ConfModel.ApplyEditsFrame | tools/conf_model.py:208-210 | edits change only bounds, and a reaction no edit names is unchanged |
| ConfModel.SetMedium | tools/conf_model.py:199-210 | each row of the medium file sets that reaction's lower bound; a missing file or id is an error, with the edits made before it kept |
| ConfModel.MediumKeepsUpperBounds | tools/conf_model.py:203-210 | the medium file changes lower bounds only |
| ConfModel.BlockAllExchanges | tools/conf_model.py:185-189 | every reaction whose id starts with 'EX_' gets bounds (0, 0); the others are unchanged |
| ConfModel.OpenAllExchanges | tools/conf_model.py:192-196 | every exchange gets bounds (-1000, 1000); the others are unchanged |
| ConfModel.OpenOverridesBlock | tools/conf_model.py:185-196 | opening after blocking is the same as opening |
| ConfModel.BlockedExchangesAreClosed | tools/conf_model.py:185-189 | after blocking, every exchange is (0, 0) and every other reaction is as before |
| ConfModel.SetSecretion | tools/conf_model.py:213-227 | 'all' sets the upper bound of every exchange to 1000; any other id applies that file's upper bounds, failing like the medium file |
| ConfModel.SetBof | tools/conf_model.py:79-93 | blocks the three biomass reactions, then sets the target to (0, 1000); the objective changes only when no lookup fails |
| ConfModel.SetBofEffect | tools/conf_model.py:86-93 | after success the target is (0, 1000), the other biomass reactions are (0, 0), and every other reaction is unchanged |
| ConfModel.SetNgam | tools/conf_model.py:264-265 | ATPM gets bounds (ngam, 1000) |
| ConfModel.GamStoich | tools/conf_model.py:245-252 | atp_c and h2o_c get -abs(GAM), adp_c, h_c and pi_c get +abs(GAM), but only when the reaction already had them; other metabolites are kept; zero coefficients vanish |
| ConfModel.GamLastWins | tools/conf_model.py:245-252 | setting GAM twice equals setting the second value, as long as the first is not 0 |
| ConfModel.SetReactionGam | tools/conf_model.py:245-252 | only the stoichiometry of the given reaction changes, and it becomes GamStoich |
| ConfModel.GamRewrite | tools/conf_model.py:246-252 | subtracting the target coefficients and adding back -abs(GAM) or +abs(GAM) for each of them leaves exactly the stoichiometry GamStoich describes |
| ConfModel.AtpColumn | tools/conf_model.py:272-284 | 'batch' reads the batch column; 'chemostat' chooses by medium name ('cellulose', then 'cellobiose', then 'MTC-cell'); anything else is a ValueError |
| ConfModel.SetAtpParam | tools/conf_model.py:268-287 | rewrites the biomass reaction's GAM, then sets NGAM from the chosen column |
| ConfModel.MediumFiles | tools/conf_model.py:41 | the medium files are the directory entries containing '.csv' |
| ConfModel.SelectMedium | tools/conf_model.py:44-58 | 'cellb' wins over 'avcell'; a known file name picks the cellobiose biomass exactly when it mentions 'cellobiose'; any other medium is a ValueError |
| ConfModel.SetConditions | tools/conf_model.py:31-77 | selects the medium, blocks exchanges, applies medium, secretion, ATP parameters and objective in that order, stopping at the first error |
| ConfModel.ConditionsOpenObjective | tools/conf_model.py:64-77 | when set_conditions succeeds, the selected biomass reaction is the objective and has bounds (0, 1000) |
| ConfModel.Measured | tools/conf_model.py:159-160 | the measured columns are those not ending in 'std' and not metadata |
| ConfModel.ModeBoundsOrdered | tools/conf_model.py:168-179 | with std >= 0, 'min' <= 'mean' <= 'max' for the lower bound, and 'both' brackets the mean |
| ConfModel.ModeBoundsNan | tools/conf_model.py:171-182 | a NaN mean leads to no assignment |
| ConfModel.SetExperimentalFluxBounds | tools/conf_model.py:143-182 | each measured column assigns the bounds of its mode to the biomass reaction ('GR') or to 'EX_<met>_e', stopping at the first error |
| ConfModel.FluxEffectFrame | tools/conf_model.py:162-182 | only the reactions some measured column targets change, and only in their bounds |
| ConfModel.UnknownModeFails | tools/conf_model.py:168-182 | an unknown constraint mode fails at the first column, before any change (lb is unbound) |
| ConfModel.Range5Members | tools/conf_model.py:122 | the range holds exactly every fifth number from start to end |
| ConfModel.LocusTagRoundTrip | tools/conf_model.py:123-126 | a generated tag for a 4- or 5-digit number has 15 characters, and its last five read back as the number |
| ConfModel.RangeEndAsWrittenAlwaysPrefixes | tools/conf_model.py:110-112 | the guard as written always prefixes the end |
| ConfModel.FullRangeEndMangled | tools/conf_model.py:110-122 | a range whose end is a full old-style id fails as written |
| ConfModel.ExpandSegment | tools/conf_model.py:107-129 | more than one '-' is ValueError('Unexpected format'); a single id yields its mapped id (corrected guard) |
| ConfModel.FullRangeEndCorrected | tools/conf_model.py:109-126 | with the corrected guard, a full-id range end expands whenever both endpoints map to ids ending in five digits |
| ConfModel.ExpandSegmentAgrees | tools/conf_model.py:107-129 | the code as written and the corrected guard agree on abbreviated ends and single ids |
| ConfModel.FullAndAbbreviatedRangesAgree | tools/conf_model.py:97-126 | a full end and the same end abbreviated expand to the same ids, with the corrected guard |
| ConfModel.GroupedRangeEnds | tools/conf_model.py:109-126 | 'Clo1313_560-564' with neither end in the gene map expands to ['CLO1313_RS03560'], because int() reads the '3_560' and '3_564' its ends leave as 3560 and 3564 |
| Text.ParseIntGrouping | tools/conf_model.py:122 | int() reads an underscore between two digits as digit grouping ('3_564' is 3564) and rejects a doubled, leading or trailing underscore |
| ConfModel.RangeIds | tools/conf_model.py:121-126 | the inner loop produces the locus tags of the range, in order |
| ConfModel.SegmentIds | tools/conf_model.py:107-129 | intended: one pass of the outer loop is ExpandSegment, the segment expansion with the corrected prefix guard of the finding on line 111 |
| ConfModel.DeletedGeneIds | tools/conf_model.py:105-131 | intended (corrected guard of line 111): the ids of all segments are concatenated in order; the first failing segment fails the whole |
| ConfModel.KnockedOut | tools/conf_model.py:133-135 | a gene is non-functional afterwards exactly when it already was or some listed id finds it |
| ConfModel.NotInModel | tools/conf_model.py:133-137 | the reported ids are exactly the listed ids the model lacks |
| ConfModel.KnockOutCompose | tools/conf_model.py:133-135 | knocking out in two passes equals knocking out all ids at once |
| ConfModel.KnockOutGeneAt | tools/conf_model.py:135 | `Gene.knock_out` makes the gene non-functional and gives bounds (0, 0) to each of its reactions whose rule fails with the genes now off, leaving the other reactions as they were |
| ConfModel.KnockOutGenesAgree | tools/conf_model.py:133-137 | on the genes, the knock-out loop is KnockedOut, and no reaction is added or removed |
| ConfModel.KnockOutOnlyCloses | tools/conf_model.py:133-137 | whatever the rules, every reaction ends as it was or with bounds (0, 0), and a reaction whose rule names none of the listed ids is unchanged |
| ConfModel.KnockOutReactions | tools/conf_model.py:133-137 | with rules that more knocked-out genes cannot revive, a reaction ends with bounds (0, 0) exactly when its rule names a knocked-out gene and fails with the genes off at the end; every other reaction is unchanged |
| ConfModel.KnockOutIds | tools/conf_model.py:133-137 | the loop knocks out every listed gene the model has, with its reactions as KnockOut states, and collects the others |
| ConfModel.KnockOutGenes | tools/conf_model.py:95-137 | intended (corrected guard of line 111): a string is split on ',' with spaces removed; an expansion error leaves genes and reactions untouched; otherwise KnockOutIds |
| MetCharge.CompareWithText | steps/3_calc_met_charge.py:41-50 | comparing a computed charge with a table cell gives 'T' exactly when the cell parses as an int and differs; an equal value gives '' |
| MetCharge.CompareSymmetric | steps/3_calc_met_charge.py:41-50 | the comparison is symmetric and only ever returns '' or 'T' |
| MetCharge.FirstH | steps/3_calc_met_charge.py:156 | the position found is the first 'H' followed by a digit or a word character |
| MetCharge.GetNh | steps/3_calc_met_charge.py:154-166 | the hydrogen count is never negative, and it is 0 when no 'H' is followed by a word character |
| MetCharge.GetNhAt | steps/3_calc_met_charge.py:156-166 | at the first match, digits after 'H' are read as a number; any other word character counts as 1 |
| MetCharge.GetNhOfRewrite | steps/3_calc_met_charge.py:154-166 | a formula rewritten with H<n> reads back n hydrogens |
| MetCharge.ComputedCharge | steps/3_calc_met_charge.py:126-132 | the charge is get_nh(charged) - get_nh(neutral) when the charged formula is non-empty, and '' otherwise |
| MetCharge.ChargedFormula | steps/3_calc_met_charge.py:205-229 | get_charged_formula, which no code of the script calls (it is defined after main()): a charge that is not an int gives 'No charge available '; a formula without hydrogen comes back unchanged, and an empty one gives 'Formula not found in kegg' |
| MetCharge.ChargedFormulaHydrogens | steps/3_calc_met_charge.py:233-246 | for a single 'H' followed by a letter or by a count other than 1, the hydrogen count is replaced by n_h + charge with the text before and after kept, through the n_h == 1 split and the digits split respectively |
| MetCharge.ChargeRoundTrip | steps/3_calc_met_charge.py:233-246 | computing the charge of the rewritten formula against the original gives back the charge |
| MetCharge.ExplicitCountOne | steps/3_calc_met_charge.py:233-242 | an explicit 'H1' reads as one hydrogen and takes the n_h == 1 split, so the shifted count is written in front of the '1', which stays |
| MetCharge.ExplicitCountOneExample | steps/3_calc_met_charge.py:233-242 | 'C2H1Cl' with charge 1 becomes 'C2H21Cl' |
| MetCharge.TextChargeRaises | steps/3_calc_met_charge.py:207-238 | as written, in the uncalled get_charged_formula, a charge given as text raises TypeError at n_h + charge, while the corrected version uses the parsed int |
| MetCharge.ChargedFormulaAgreesOnInts | steps/3_calc_met_charge.py:205-246 | on an int charge the code as written and the corrected version agree |
| Standardization.CalcMw | tools/standardization.py:13-42 | 'charge' is removed from the caller's dictionary, and the weight is the sum of table weight times the absolute amount over the elements the table lists, divided by 1000, and never negative |
| Standardization.MassOverAgree | tools/standardization.py:37-41 | elements outside the table, 'charge' included, contribute nothing |
| Standardization.MwNonNegative | tools/standardization.py:36-42 | the molecular weight is never negative |
| Standardization.MwScale | tools/standardization.py:37-39 | scaling a composition scales its weight by the absolute factor |
| Standardization.MultipliedCoefficients | tools/standardization.py:68-72 | every coefficient of the copy is the original times value; zero coefficients vanish |
| Standardization.MultiplyRxn | tools/standardization.py:60-73 | the result differs from the input only in its coefficients, and the input is a value, so it is not modified |
| Standardization.MultiplyInverse | tools/standardization.py:60-73 | multiplying by c and then by 1/c gives the reaction back, without zero coefficients |
| Standardization.MultiplyMassBalance | tools/standardization.py:60-73 | the mass balance of a multiplied reaction is the multiplied mass balance |
| Standardization.NormalizeBiomass | tools/standardization.py:45-57 | only reaction i's coefficients change; each is divided, in place, by the weight computed before the change; the new weight is exactly 1; a zero weight raises |
| Standardization.NormalizedWeight | tools/standardization.py:51-57 | dividing every coefficient by the weight of the mass balance makes that weight 1, so the assertion holds |
| Standardization.BadMets | tools/standardization.py:83-89 | the poorly defined metabolites are exactly those with a nonzero charge that is not an integer, or with a non-integer element count |
| Standardization.DecimalCountBad | tools/standardization.py:85-87 | a metabolite with a nonzero charge whose formula has a count with a nonzero decimal digit, such as 'C1.5', is poorly defined |
| Standardization.BadMetsEmpty | tools/standardization.py:83-92 | the list is empty exactly when no metabolite is poorly defined |
| Standardization.RemoveReactions | tools/standardization.py:101-106 | removal keeps exactly the reactions whose ids are not listed |
| Standardization.MergeAll | tools/standardization.py:98-102 | each consumer is replaced by its sum with the producer scaled by the consumer's absolute coefficient |
| Standardization.ConsolidatePass | tools/standardization.py:93-102 | one pass over the bad metabolites, failing the assertion when a metabolite does not have exactly one producer |
| Standardization.ConsolidateNonInt | tools/standardization.py:76-106 | consolidate_non_int returns normally exactly when no metabolite is poorly defined; while one is, it never returns normally: it fails the assertion of line 95 or loops forever, which the model shows as running out of fuel |
| Standardization.ConsolidateNeverDone | tools/standardization.py:91-103 | the passes never change a metabolite, so with a poorly defined metabolite the loop never ends normally |
| Standardization.ConsolidateNothingBad | tools/standardization.py:91-106 | with no poorly defined metabolite, nothing is merged or removed |
| KBaseBounds.ModelIdHasNoDash | iCBI/1_fix_kbase_bounds.py:38 | the model id is the sheet id with every '-' replaced by '_' |
| KBaseBounds.RepairedBounds | iCBI/1_fix_kbase_bounds.py:40-45 | only (-1000, 0) is turned around, into (0, 1000); other bounds are copied; repairing twice is repairing once; ordered bounds stay ordered |
| KBaseBounds.FixReactionBounds | iCBI/1_fix_kbase_bounds.py:37-45 | the first loop is the sequence of lookups by model id and bound assignments, stopping with a KeyError |
| KBaseBounds.ReactionBoundsAt | iCBI/1_fix_kbase_bounds.py:37-45 | when every id exists, a reaction carries the repaired bounds of the last row naming it, and other reactions are unchanged |
| KBaseBounds.FixReactionBoundsError | iCBI/1_fix_kbase_bounds.py:38-39 | the KeyError names the model id of the first row whose reaction is missing |
| KBaseBounds.NegateSwapProperties | iCBI/1_fix_kbase_bounds.py:54-55 | negating and swapping keeps ordered bounds ordered and undoes itself |
| KBaseBounds.RepairedIsNegateSwap | iCBI/1_fix_kbase_bounds.py:40-55 | the reversed irreversible row is turned around just as an exchange row is |
| KBaseBounds.FixExchangeBounds | iCBI/1_fix_kbase_bounds.py:48-57 | the second loop sets each existing exchange to the row's bounds negated and swapped, and reports the others |
| KBaseBounds.ExchangeReport | iCBI/1_fix_kbase_bounds.py:52-57 | the report lists exactly the exchanges missing from the model, in row order |
| KBaseBounds.ExchangeAt | iCBI/1_fix_kbase_bounds.py:48-55 | a reaction ends with the negated and swapped bounds of the last row naming its exchange, or unchanged |
| Ms2Bigg.ReadIdMap | tools/ms2bigg.py:11-28 | the map is the dict of (ms, bigg) pairs assigned row by row |
| Ms2Bigg.IdMapContents | tools/ms2bigg.py:16-17 | the keys are the 'ms' column, and each holds the 'bigg' value of the last row carrying it |
| Ms2Bigg.MetaboliteIdParts | tools/ms2bigg.py:37-41 | a renamed metabolite id is the BiGG id of its stem, '_', and the compartment without its last character; an unknown stem keeps its id |
| Cobra.SetMetaboliteIdRoundTrip | tools/ms2bigg.py:41 | in a well-formed model, the metabolite id assignment followed by assigning the old id back restores the metabolites and every reaction's coefficients |
| Cobra.SetMetaboliteIdKeepsBalance | tools/ms2bigg.py:41 | the metabolite id assignment keeps a well-formed model well formed and changes no reaction's mass balance, because the reactions follow the renamed metabolite |
| Cobra.SetReactionIdRoundTrip | tools/ms2bigg.py:45 | with distinct reaction ids and an objective among them, the reaction id assignment followed by assigning the old id back restores the reactions and the objective |
| Ms2Bigg.RenameMetaboliteIds | tools/ms2bigg.py:37-41 | the metabolite loop leaves the metabolites, the reactions and the ValueError flag that MetaboliteLoop gives for the old state |
| Ms2Bigg.MetaboliteLoopRenames | tools/ms2bigg.py:37-41 | a metabolite loop that raises no ValueError gives every metabolite whose stem is in the table its BiGG id, and changes nothing else in the metabolites |
| Ms2Bigg.MetaboliteLoopReactions | tools/ms2bigg.py:41 | the metabolite loop changes nothing in the reactions except their coefficients |
| Ms2Bigg.MetaboliteLoopKeepsBalance | tools/ms2bigg.py:37-41 | whether it completes or stops at a ValueError, the metabolite loop keeps a well-formed model well formed and leaves every reaction's mass balance as it was |
| Ms2Bigg.MetaboliteLoopFresh | tools/ms2bigg.py:37-41 | no ValueError is raised when each new id differs from every other metabolite's id and from every other new id |
| Ms2Bigg.RenameReactionsAt | tools/ms2bigg.py:43-45 | intended: a reaction changes exactly when its whole id is a key, and then only its id, to the table's value |
| Ms2Bigg.RenameReactionIds | tools/ms2bigg.py:43-45 | the reaction loop leaves the reactions, the objective and the ValueError flag that ReactionLoop gives for the old state |
| Ms2Bigg.ReactionLoopRenames | tools/ms2bigg.py:43-45 | a reaction loop that raises no ValueError renames every reaction whose id is a key to the table's value, and changes nothing else in the reactions |
| Ms2Bigg.ReactionLoopObjective | tools/ms2bigg.py:43-45 | with distinct reaction ids, whether the loop completes or stops, the objective is still the id of the same reaction |
| Ms2Bigg.ReactionLoopFresh | tools/ms2bigg.py:43-45 | no ValueError is raised when each new id differs from every other reaction's id and from every other new id |
| Ms2Bigg.UnknownGeneTruncated | tools/ms2bigg.py:49-52 | as written, the identity test fails, so 'Unknown' becomes 'U' |
| Ms2Bigg.GeneIdAsWrittenDiffers | tools/ms2bigg.py:49-52 | the code as written and the intended comparison differ on 'Unknown' and on no other id |
| Ms2Bigg.GeneIdProperties | tools/ms2bigg.py:49-52 | intended: 'Unknown' keeps its name, and any other id loses exactly its last six characters ('_CDS_1') |
| Ms2Bigg.RenameDictOf | tools/ms2bigg.py:47-52 | intended: every gene id of the model is a key, and each maps to its new id |
| Ms2Bigg.BuildRenameDict | tools/ms2bigg.py:47-52 | intended: the loop builds a dictionary with every gene id as key, 'Unknown' mapped to itself and any other id mapped to itself without its last six characters |
| Ms2Bigg.GeneLoopFresh | tools/ms2bigg.py:54 | when no new name is another gene's id or another gene's new name, the items of rename_dict rename the genes one by one and merge none |
| Ms2Bigg.GenesRenamed | tools/ms2bigg.py:54 | intended: with fresh new names, rename_genes gives every gene its new id, removes none, and changes nothing but ids |
| Ms2Bigg.GenesMerged | tools/ms2bigg.py:54 | rename_genes merges: for genes 'ab_CDS_1' then 'ab', the first one's new name is the second one's id, so only the second gene remains, renamed '' |
| Ms2Bigg.RulesRewritten | tools/ms2bigg.py:54 | every gene rule has each gene id replaced by its new name; with distinct word-shaped new names, replacing them back restores the rule |
| Ms2Bigg.ConvertFresh | tools/ms2bigg.py:31-56 | intended: when every new metabolite and reaction id is fresh, main completes; the metabolites and reactions carry their BiGG ids, the gene rules use the new gene names, and no reaction's mass balance changes |
| Ms2Bigg.ConvertModel | tools/ms2bigg.py:31-56 | intended: main returns the model it was given, renamed in place as Convert says: the metabolite loop, the reaction loop, then rename_genes, with a ValueError ending it in the state reached |
| Isomers.ConsideredMembers | steps/identify_isomers.py:32-40 | a metabolite is counted exactly when it is in the model and passes the filter (not '_e', not 'R', not empty, not generic, with a formula) |
| Isomers.FormulasAligned | steps/identify_isomers.py:31-33 | the formulas counted are those of the considered metabolites, in model order |
| Isomers.CountFormulas | steps/identify_isomers.py:30-33 | the OrderedDict's keys are the distinct formulas in order of first occurrence, and each count is the number of considered metabolites carrying it |
| Isomers.CountsMeaning | steps/identify_isomers.py:30-33 | a formula is a key exactly when some considered metabolite has it, which is exactly when its count is positive |
| Isomers.BuildRows | steps/identify_isomers.py:37-43 | the second loop appends the row of each considered metabolite, with its group index in the key list |
| Isomers.RowsMeaning | steps/identify_isomers.py:38-43 | row i carries the id, name and formula of the i-th considered metabolite and its formula's count; two rows share a group index exactly when they share a formula |
| Isomers.KeepRepeatedSorted | steps/identify_isomers.py:47-48 | keeping only rows whose count exceeds one keeps the table sorted |
| Isomers.IdentifyIsomers | steps/identify_isomers.py:23-49 | main computes the table written to the CSV |
| Isomers.IsomerTableProperties | steps/identify_isomers.py:47-49 | the table holds exactly the rows of repeated formulas, sorted by descending group index, so that every group is contiguous |
| Corrections.DuplicatePairs | iCBI/3_corrections.py:33-43 | a set is recorded exactly when it is the pair of two reactions with different ids and equal metabolite sets, and no pair is recorded twice |
| Corrections.PairShape | iCBI/3_corrections.py:38-40 | a recorded pair has two distinct ids, and the relation is symmetric |
| Corrections.CitrateEdit | iCBI/3_corrections.py:301-307 | CITt2 gains cit_c with the h_c coefficient and cit_e with the h_e coefficient, other coefficients unchanged; a missing proton is a KeyError |
| Corrections.ExternalCitrate | iCBI/3_corrections.py:293-295 | cit_e lies in 'e0' with cit_c's formula and charge |
| Corrections.CitrateExchange | iCBI/3_corrections.py:298-299 | add_boundary(cit_e, lb=0) is a reaction EX_cit_e that only consumes one cit_e, with bounds (0, 1000) |
| Corrections.WithoutReactionAt | iCBI/3_corrections.py:297 | deleting a reaction keeps every other reaction in its order |
| Corrections.FixCitrateTransport | iCBI/3_corrections.py:293-308 | the cell's effect on the model's metabolites and reactions is that of CitrateTransport: cit_e added, EX_cit_e replaced by the new exchange reaction, CITt2 edited |
| Corrections.CitrateLookupNone | iCBI/3_corrections.py:297-301 | after the exchange swap a model without CITt2 still has none |
| Corrections.CitrateLookupSome | iCBI/3_corrections.py:297-301 | after the exchange swap CITt2 is found at its old place, one earlier when it followed the deleted reaction |
| Corrections.CitrateTransportFails | iCBI/3_corrections.py:293-308 | the cell fails exactly when cit_c, EX_cit_e (AttributeError), CITt2 or one of its protons is missing, and a missing EX_cit_e leaves the reactions as they were |
| Corrections.CitrateSymportEffect | iCBI/3_corrections.py:301-308 | a successful CITt2 edit keeps every other reaction and gives CITt2 its new name |
| Corrections.CitrateTransportEffect | iCBI/3_corrections.py:293-308 | on success the reaction count is unchanged, the last reaction consumes only cit_e within bounds (0, 1000), and CITt2 before it has its new name |
| Corrections.CitrateEditBalanceAt | iCBI/3_corrections.py:301-307 | when CITt2 moves one proton in, the edit leaves each element's and the charge's balance unchanged |
| Corrections.CitrateEditBalanced | iCBI/3_corrections.py:301-307 | so the mass balance of the edited reaction equals the original one |
| Corrections.WithoutMetabolite | iCBI/3_corrections.py:354 | remove_from_model takes the metabolite out of every reaction and changes nothing else |
| Corrections.MergeDuplicateIron | iCBI/3_corrections.py:350-354 | the cell's effect on the model is the iron merge |
| Corrections.MergeIronEffect | iCBI/3_corrections.py:350-354 | afterwards nothing mentions fe2_DUPLICATED_c, FE2OR has 2 more fe2_c, every other coefficient is unchanged; a failed lookup changes nothing |
| Metadata.AliasEntry | iCBI/4_metadata_and_mass_imbalance.py:164-165 | an alias entry without ':' raises IndexError |
| Metadata.SplitPieces | iCBI/4_metadata_and_mass_imbalance.py:164-165 | splitting yields a second piece exactly when the separator occurs |
| Metadata.ParseMsAliases | iCBI/4_metadata_and_mass_imbalance.py:160-168 | the loop computes the alias dictionary of the ';'-separated entries, or fails |
| Metadata.AliasesFailStays | iCBI/4_metadata_and_mass_imbalance.py:163-167 | once an entry fails, the whole parse fails |
| Metadata.AliasesMeaning | iCBI/4_metadata_and_mass_imbalance.py:155-168 | the parse fails exactly when some entry has no ':'; only bigg.metabolite and kegg.compound are keys; the last BiGG or KEGG entry wins, split on '&#124;' |
| Metadata.FilledAnnotation | iCBI/4_metadata_and_mass_imbalance.py:174-179 | bigg.metabolite and kegg.compound are filled only when absent, inchikey is always set, other annotations are kept |
| Metadata.FillMetaboliteAnnotations | iCBI/4_metadata_and_mass_imbalance.py:171-179 | the loop updates each metabolite in turn, stopping at the first failing alias parse |
| Metadata.BulkInfoAll | iCBI/4_metadata_and_mass_imbalance.py:171-179 | the metabolite list keeps its length |
| Metadata.BulkInfoStops | iCBI/4_metadata_and_mass_imbalance.py:171-179 | after the failing metabolite nothing more is changed |
| Metadata.BulkInfoKeepsExisting | iCBI/4_metadata_and_mass_imbalance.py:175-178 | an existing bigg.metabolite or kegg.compound is never overwritten, and is present afterwards unless the seed id is unknown |
| Metadata.LinkAnnotations | iCBI/4_metadata_and_mass_imbalance.py:132-133 | every new annotation key is a mapped database name |
| Metadata.LinkAnnotationsLastWins | iCBI/4_metadata_and_mass_imbalance.py:132-133 | the last DB_links item for a database sets its annotation |
| Metadata.LinkAnnotationsKeeps | iCBI/4_metadata_and_mass_imbalance.py:132-133 | annotations no item maps to are kept |
| Metadata.ConvertDbLinks | iCBI/4_metadata_and_mass_imbalance.py:129-138 | DB_links is removed whether or not it parses; only notes and annotation change; a reaction without it is untouched |
| Metadata.ConvertAllDbLinks | iCBI/4_metadata_and_mass_imbalance.py:128-138 | the loop converts every reaction |
| Metadata.ReactionSboPrecedence | iCBI/4_metadata_and_mass_imbalance.py:201-211 | the reaction SBO term is chosen by the precedence DM_, EX_, transport subsystem (any case), BIOMASS, else SBO:0000176 |
| Metadata.AddMetaboliteSbo | iCBI/4_metadata_and_mass_imbalance.py:198-199 | every metabolite gets SBO:0000247 and nothing else changes |
| Metadata.AddReactionSbo | iCBI/4_metadata_and_mass_imbalance.py:201-211 | every reaction gets its SBO term and nothing else changes |
| Metadata.AddGeneSbo | iCBI/4_metadata_and_mass_imbalance.py:214-215 | every gene gets SBO:0000243 and nothing else changes |
| Metadata.AddSboTerms | iCBI/4_metadata_and_mass_imbalance.py:197-215 | all three loops together |
| Metadata.TriageImbalances | iCBI/4_metadata_and_mass_imbalance.py:228-243 | the triage loop computes the two row lists |
| Metadata.TriageMeaning | iCBI/4_metadata_and_mass_imbalance.py:230-243 | a row is in the proton list exactly when it belongs to an imbalanced, non-excluded reaction whose imbalance keys minus 'O' are exactly H and charge, and in the other list exactly when the keys differ |
| Metadata.TriageExcludes | iCBI/4_metadata_and_mass_imbalance.py:230-239 | no row belongs to an EX_, BIOMASS or DM reaction or has an empty balance; the iSG id is the reaction's own id or 'na' |
| Metadata.ImbalanceTableSorted | iCBI/4_metadata_and_mass_imbalance.py:245-249 | the table raises KeyError exactly when there are no rows, and is otherwise a permutation of the rows sorted by icbi_id |
| Metadata.IsgMatch | iCBI/4_metadata_and_mass_imbalance.py:256-268 | the iSG metabolite is found by id first, then through the id map, else 'na' |
| Metadata.WriteMetaboliteRows | iCBI/4_metadata_and_mass_imbalance.py:296-305 | the nested loop computes the metabolite rows |
| Metadata.ReactionRows | iCBI/4_metadata_and_mass_imbalance.py:301-305 | the inner loop writes one row for each metabolite of the reaction outside the cofactor list, tagged with the reaction id |
| Metadata.RowsForMeaning | iCBI/4_metadata_and_mass_imbalance.py:300-305 | a reaction contributes one row per metabolite it uses, except the twelve ignored cofactors |
| Metadata.MetRowsMeaning | iCBI/4_metadata_and_mass_imbalance.py:280-305 | a row is written exactly for a metabolite, outside the cofactor list, of a reaction in the other-imbalance list |
| Metadata.MetRowsSound | iCBI/4_metadata_and_mass_imbalance.py:299-305 | every written row is the row of some listed reaction and some metabolite of it outside the cofactor list |
| Metadata.MetRowsComplete | iCBI/4_metadata_and_mass_imbalance.py:299-305 | every metabolite outside the cofactor list of every listed reaction gets its row |
| Metadata.MetaboliteTableSorted | iCBI/4_metadata_and_mass_imbalance.py:307-310 | the rewritten table is a permutation of the rows sorted by rxn_id |
| ApplyCorrections.AddMissingMetabolite | iCBI/5_apply_mass_and_charge_balance_corrections.py:14-15 | the iSG metabolite is appended in compartment 'c0'; if its id is already present (add_metabolites ignores it), that metabolite's compartment becomes 'c0' |
| ApplyCorrections.FindMetaboliteAppended | iCBI/5_apply_mass_and_charge_balance_corrections.py:14-15 | the appended metabolite is found by its id at the end of the list |
| ApplyCorrections.CorrectAll | iCBI/5_apply_mass_and_charge_balance_corrections.py:20-25 | the corrections keep every metabolite's id and position |
| ApplyCorrections.ApplyMetaboliteCorrections | iCBI/5_apply_mass_and_charge_balance_corrections.py:19-25 | the loop with its `applied` list computes those corrections |
| ApplyCorrections.CorrectMetabolite | iCBI/5_apply_mass_and_charge_balance_corrections.py:23-24 | the metabolite gets the curated formula as text and the curated charge, and no other metabolite changes |
| ApplyCorrections.FirstRowMeaning | iCBI/5_apply_mass_and_charge_balance_corrections.py:21-25 | the row applied for an id is the first row naming it, and there is none exactly when no row names it |
| ApplyCorrections.FirstRowWins | iCBI/5_apply_mass_and_charge_balance_corrections.py:21-25 | a metabolite ends with the string form of the first row's formula and its charge; later rows for that id are ignored |
| ApplyCorrections.ApplyAll | iCBI/5_apply_mass_and_charge_balance_corrections.py:28-34 | rebuilding keeps every reaction's id and position |
| ApplyCorrections.ApplyTable | iCBI/5_apply_mass_and_charge_balance_corrections.py:28-34 | apply_corrections rebuilds each reaction in table order |
| ApplyCorrections.ApplyBothTables | iCBI/5_apply_mass_and_charge_balance_corrections.py:36-37 | the two tables applied in turn act like their concatenation |
| ApplyCorrections.KnownReactionsSameIds | iCBI/5_apply_mass_and_charge_balance_corrections.py:32 | a table whose ids all exist still has them after a rebuild that keeps ids |
| ApplyCorrections.ApplyAllAppend | iCBI/5_apply_mass_and_charge_balance_corrections.py:36-37 | applying one table and then another equals applying the two as one table |
| ApplyCorrections.LastAppliedAppend | iCBI/5_apply_mass_and_charge_balance_corrections.py:36-37 | in the concatenation, the second table's last applied row wins over the first's |
| ApplyCorrections.LastRowWins | iCBI/5_apply_mass_and_charge_balance_corrections.py:30-34 | a reaction is rebuilt from the last non-'ignore' row naming it, and is untouched when only 'ignore' rows name it |
| ApplyCorrections.RemainingImbalances | iCBI/5_apply_mass_and_charge_balance_corrections.py:42-47 | the loop computes the remaining-imbalance rows |
| ApplyCorrections.RemainingMeaning | iCBI/5_apply_mass_and_charge_balance_corrections.py:43-47 | a row is reported exactly for each imbalanced reaction that is not EX_, BIOMASS or DM, with its balance |
| ApplyCorrections.RemainingReportSorted | iCBI/5_apply_mass_and_charge_balance_corrections.py:49-51 | the report raises KeyError exactly when no imbalance remains, and is otherwise a permutation of the rows sorted by icbi_id |
| Nomenclature.NoSpaces | steps/4_upgrade_nomenclature_and_metadata.py:41-51 | the new id holds no space |
| Nomenclature.ReactionRowStepMeaning | steps/4_upgrade_nomenclature_and_metadata.py:39-42 | a row raises KeyError exactly when no reaction has its iat_id, and ValueError exactly when its space-free new id is another reaction's id, and then changes nothing; otherwise the first reaction with that iat_id takes the new id and the row's name, the objective follows it, and nothing else changes |
| Nomenclature.RenameReactions | steps/4_upgrade_nomenclature_and_metadata.py:38-42 | the rows are applied in order, each to the state the previous one left, until the first error; the number of reactions never changes |
| Nomenclature.UpdateReactions | steps/4_upgrade_nomenclature_and_metadata.py:35-42 | update_reactions leaves the reactions, the objective and the error that RenameReactions gives: the rows in order, stopping at the first KeyError or ValueError with the earlier rows applied |
| Nomenclature.RenameReactionsStops | steps/4_upgrade_nomenclature_and_metadata.py:40 | rows after the failing one have no effect |
| Nomenclature.RenameReactionsMeaning | steps/4_upgrade_nomenclature_and_metadata.py:39-42 | only ids and names change, and a changed reaction carries some row's space-free isg_id and its isg_name |
| Nomenclature.GenericFlagMeaning | steps/4_upgrade_nomenclature_and_metadata.py:63-69 | IS_GENERIC is set exactly for notes starting with 'generic': to 'True' without ':', else to the text between the first and second ':' |
| Nomenclature.RenameMetaboliteMeaning | steps/4_upgrade_nomenclature_and_metadata.py:51-69 | for the metabolite alone (the id clash is the setter's, stated by MetaboliteRowStepFailures): a new id without '_c' or '_e' fails the compartment assertion; an unparsable charge fails unless the note starts with generic, review or pseudometabolite; otherwise id, name, formula, charge (kept when unparsable), KEGG_ID and IS_GENERIC are set, and compartment and annotation kept |
| Nomenclature.RenameOne | steps/4_upgrade_nomenclature_and_metadata.py:49-69 | the body of the row loop computes that update |
| Nomenclature.MetaboliteRowStepFailures | steps/4_upgrade_nomenclature_and_metadata.py:49-60 | a row fails with KeyError exactly when no metabolite has its iat_id, then the compartment assertion exactly when the new id lacks '_c' or '_e', then ValueError exactly when the new id is another metabolite's id, then the charge assertion exactly when the charge does not parse and the note does not excuse it; all but the charge failure leave the model unchanged |
| Nomenclature.MetaboliteRowStepEffect | steps/4_upgrade_nomenclature_and_metadata.py:50-69 | a row that passes the lookup, the compartment assertion and the id setter updates the first metabolite with its iat_id as RenameMetabolite says, and renames that metabolite in every reaction |
| Nomenclature.RenameMetabolites | steps/4_upgrade_nomenclature_and_metadata.py:48-69 | the rows are applied in order, each to the state the previous one left, until the first failure; the numbers of metabolites and reactions never change |
| Nomenclature.UpdateMetabolites | steps/4_upgrade_nomenclature_and_metadata.py:45-69 | update_metabolites leaves the metabolites, the reactions and the failure that RenameMetabolites gives: the rows in order, stopping at the first KeyError, failed assertion or ValueError |
| Nomenclature.RenameMetabolitesStops | steps/4_upgrade_nomenclature_and_metadata.py:50-60 | rows after the failing one have no effect |
| Nomenclature.RenameMetabolitesIds | steps/4_upgrade_nomenclature_and_metadata.py:51-53 | after a successful run every metabolite is either untouched or has a space-free id with a compartment suffix |
| Nomenclature.GenePairsStep | steps/4_upgrade_nomenclature_and_metadata.py:81-83 | a gene row adds its (old_locus_tag, locus_tag) pair only when the old tag is not empty |
| Nomenclature.GenePairsMeaning | steps/4_upgrade_nomenclature_and_metadata.py:81-83 | the gene pairs are exactly those of rows with a non-empty old tag |
| Nomenclature.AddGeneRows | steps/4_upgrade_nomenclature_and_metadata.py:79-83 | the gene loop leaves repdict's keys in first-insertion order with the last value assigned, over the rows with a non-empty old tag |
| Nomenclature.AddSubsystemRows | steps/4_upgrade_nomenclature_and_metadata.py:86-89 | the subsystem loop continues that dictionary with the subsystem pairs, in order |
| Nomenclature.BuildReplacements | steps/4_upgrade_nomenclature_and_metadata.py:76-89 | repdict's key order is first insertion, and each key holds the last value assigned, gene rows first and subsystem rows after |
| Nomenclature.PairStep | steps/4_upgrade_nomenclature_and_metadata.py:83-89 | one assignment appends a new key to the order or keeps it, and overwrites the value |
| Nomenclature.KeysOfMeaning | steps/4_upgrade_nomenclature_and_metadata.py:76-89 | a key is in repdict exactly when some pair has it |
| Nomenclature.SubsystemWins | steps/4_upgrade_nomenclature_and_metadata.py:86-89 | the last subsystem correction for a name wins over any gene tag equal to it |
| Nomenclature.SubstituteLines | steps/4_upgrade_nomenclature_and_metadata.py:97-104 | every line is written out with the replacements of the keys found in the original line, applied in key order |
| Nomenclature.SubstituteNoKey | steps/4_upgrade_nomenclature_and_metadata.py:101-103 | a line containing no key is copied unchanged |
| Nomenclature.SubstituteIdentity | steps/4_upgrade_nomenclature_and_metadata.py:101-103 | keys that map to themselves change nothing |
| Nomenclature.BuildGeneDict | steps/4_upgrade_nomenclature_and_metadata.py:114-118 | the loop builds genedict from the rows |
| Nomenclature.GeneDictLastWins | steps/4_upgrade_nomenclature_and_metadata.py:117-118 | the last row for a locus tag is the one kept |
| Nomenclature.TagPairsIndex | steps/4_upgrade_nomenclature_and_metadata.py:117-118 | the i-th assignment is (locus_tag of row i, row i) |
| Nomenclature.SetGeneFields | steps/4_upgrade_nomenclature_and_metadata.py:121-123 | every gene gets the 'gene' and 'product' fields of its row and nothing else changes |
| Nomenclature.AddOldGprNotes | steps/4_upgrade_nomenclature_and_metadata.py:126-127 | every reaction gets an old_gpr note holding the rule of the same id in the model before substitution |
| Nomenclature.AddGeneFields | steps/4_upgrade_nomenclature_and_metadata.py:111-127 | add_gene_fields does both |
| CurationTable.DropTiny | steps/5_create_curation_table.py:146-148 | the residual keeps exactly the entries of magnitude at least 1e-12, with their values |
| CurationTable.PopTiny | steps/5_create_curation_table.py:146-148 | the popping loop leaves that residual |
| CurationTable.WaterStep | steps/5_create_curation_table.py:131-134 | when oxygen is unbalanced (and the reaction is not DCW_TERM) water is added against it; a missing h2o_c is a KeyError |
| CurationTable.ProtonStep | steps/5_create_curation_table.py:137-141 | given the copy's balance: when only H and charge are unbalanced, by equal amounts, h_c is added against them and no other coefficient changes; a missing h_c is a KeyError |
| CurationTable.NeedsProtonsGet | steps/5_create_curation_table.py:138-139 | the proton test holds only of a balance that is the same amount in H and charge and 0 in every other key |
| CurationTable.FixMassAndChargeBalance | steps/5_create_curation_table.py:114-150 | the function computes the water step, then the proton step, then the residual |
| CurationTable.FixBalanceMeaning | steps/5_create_curation_table.py:118-150 | exchanges are returned untouched; otherwise only h2o_c and h_c coefficients change, by minus the oxygen and minus the hydrogen imbalance when the steps apply, and the residual holds no tiny entry |
| CurationTable.WaterRemovesOxygen | steps/5_create_curation_table.py:131-134 | with a water of one oxygen, the water step balances oxygen |
| CurationTable.ProtonsBalance | steps/5_create_curation_table.py:137-141 | with a proton of one H and charge +1, adding minus the imbalance of h_c to a reaction unbalanced by the same amount in H and charge only leaves it balanced |
| CurationTable.ClearListBracketsRelist | steps/5_create_curation_table.py:62-69 | a one-item list is unwrapped to its item, longer lists are kept, and putting the brackets back gives the list again |
| CurationTable.GetReactionUpdateNotes | steps/5_create_curation_table.py:188-197 | the loop computes the reaction update notes |
| CurationTable.ReviewNotesMeaning | steps/5_create_curation_table.py:193-195 | an id has a note exactly when some row with that isg_id has a non-empty review, and the last such review wins |
| CurationTable.GetMetaboliteUpdateNotes | steps/5_create_curation_table.py:200-213 | the loop computes the metabolite update notes, skipping metabolites missing from the model |
| CurationTable.AppendToAll | steps/5_create_curation_table.py:209-210 | the note is appended to the list of every reaction of the metabolite, a missing list being started empty, and no other list changes |
| CurationTable.MetNotesMeaning | steps/5_create_curation_table.py:205-212 | a reaction has notes exactly when some non-empty note belongs to a metabolite of it, and its list is those notes in row order |
| BasicModel.NewMetabolite | steps/6_basic_model.py:43-49 | a row builds a metabolite with its id, charge and only a KEGG_ID note exactly when its notes text is empty; `dict` of a non-empty string raises ValueError |
| BasicModel.NewMetabolitesStops | steps/6_basic_model.py:42-50 | the first failing row ends the loop |
| BasicModel.NewMetabolitesMeaning | steps/6_basic_model.py:42-50 | the list is built exactly when every row has empty notes, and then holds one metabolite per row in order |
| BasicModel.Unknown | steps/6_basic_model.py:51 | the metabolites add_metabolites really adds are the new ones whose id the model lacks |
| BasicModel.AddNewMeaning | steps/6_basic_model.py:51 | adding keeps the model's metabolites as a prefix and makes every new id findable |
| BasicModel.AddNewMetabolites | steps/6_basic_model.py:37-51 | the model gains the new metabolites, or is unchanged when a row or the addition fails |
| BasicModel.RowNotesMeaning | steps/6_basic_model.py:79-87 | the notes hold old_gpr, confidence_level and DB_links always, and literature_references and curation_notes only when non-empty |
| BasicModel.CurateRow | steps/6_basic_model.py:59-87 | the body of the curation loop applies one row |
| BasicModel.CurateReactions | steps/6_basic_model.py:54-87 | the loop applies the rows in order and counts duplicates |
| BasicModel.CurateStops | steps/6_basic_model.py:58-69 | the first failing row ends the loop |
| BasicModel.CurateCountsDuplicates | steps/6_basic_model.py:66-69 | on success the counter is the number of 'delete:duplicate' rows |
| BasicModel.ApplyRowMeaning | steps/6_basic_model.py:59-87 | a non-add row for an unknown id is a KeyError; 'delete' without a ':' part is an IndexError after the deletion; 'delete' removes the reaction; an 'add' row whose id is taken changes nothing (add_reactions skips it and the edits go to a reaction outside the model); any other row leaves exactly one reaction with that id carrying the row's fields, a new one for 'add' |
| BasicModel.ColumnPairs | steps/6_basic_model.py:120-121 | the i-th assignment is (locus_tag, column) of row i |
| BasicModel.BuildColumnMap | steps/6_basic_model.py:117-121 | the loop builds that dict, with keys in first-insertion order |
| BasicModel.ColumnMapLastWins | steps/6_basic_model.py:120-121 | the last row for a tag gives its value |
| BasicModel.ColumnMapKeys | steps/6_basic_model.py:120-121 | the keys are exactly the tags of the rows |
| BasicModel.OldTagPairsStep | steps/6_basic_model.py:105-107 | a row adds (locus_tag, old_locus_tag) only when the old tag is not empty |
| BasicModel.BuildOldTagMap | steps/6_basic_model.py:102-107 | the loop builds repdict from those pairs |
| BasicModel.OldTagPairsMeaning | steps/6_basic_model.py:105-107 | the pairs are exactly those of rows with an old tag |
| BasicModel.OldTagMapKeys | steps/6_basic_model.py:105-107 | a tag is a key exactly when some row gives it an old tag |
| BasicModel.WordLen | steps/6_basic_model.py:110 | the word at the head of a string is its longest prefix of word characters |
| BasicModel.WordLenPrefix | steps/6_basic_model.py:110 | a word followed by a non-word character is read whole, as the `\b` boundaries require |
| BasicModel.ReplaceWordsFirst | steps/6_basic_model.py:110-112 | non-word characters are copied |
| BasicModel.ReplaceWordsWord | steps/6_basic_model.py:110-112 | a whole word is replaced when it is a key and copied otherwise |
| BasicModel.ReplaceWordsNoKey | steps/6_basic_model.py:110-112 | a rule without any key as a whole word is unchanged |
| BasicModel.ReplaceWordsRoundTrip | steps/6_basic_model.py:110-112 | replacing with an injective word map and then with its inverse gives the rule back |
| BasicModel.OldGpr | steps/6_basic_model.py:110-112 | with an empty repdict the pattern matches empty strings at word boundaries and the lookup raises KeyError, exactly when the rule has a word character |
| BasicModel.AddOldGeneIdsNote | steps/6_basic_model.py:99-112 | each reaction in turn gets its old_gpr note until the first KeyError, after which nothing changes |
| BasicModel.NameAsWrittenIgnored | steps/6_basic_model.py:124 | as written, assigning `gene.Name` leaves the gene's name unchanged |
| BasicModel.UpdateGeneNames | steps/6_basic_model.py:115-124 | intended: every gene except s0001 and unknown gets the name of its row, in turn, until the first missing id (KeyError) |
| BasicModel.MatchingMeaning | steps/6_basic_model.py:192-194 | a gene is listed exactly when it is a key whose product is one of the four terms |
| BasicModel.CellulosomeGprStr | steps/6_basic_model.py:191-194 | the loop builds "g or " for each such gene, in key order |
| BasicModel.JoinAppend | steps/6_basic_model.py:194 | joining one more part appends the separator and the part |
| BasicModel.OrChainJoin | steps/6_basic_model.py:191-194 | the built string is the genes joined by " or " with one trailing " or " |
| BasicModel.OrChainCut | steps/6_basic_model.py:195 | dropping the last four characters gives exactly the genes joined by " or " |
| BasicModel.ColumnKeysInMap | steps/6_basic_model.py:192 | every key iterated over has a product |
| BasicModel.AddCellulosomeGenes | steps/6_basic_model.py:180-195 | CELLULOSOME_TERM's rule gets " or (" + the joined genes + ")"; a missing reaction is an AttributeError |
| BasicModel.TransporterIdShape | steps/6_basic_model.py:221 | for every stem without "__L": stem + "__L" and the stem alone both give the uppercased stem + "abc" (ala__L gives ALAabc, gly gives GLYabc) |
| BasicModel.ReplaceLSuffix | steps/6_basic_model.py:221 | replacing "__L" in a stem + "__L" removes exactly the suffix when the stem holds no "__L" |
| BasicModel.AddOneMeaning | steps/6_basic_model.py:219-229 | one amino acid succeeds exactly when its '_e' metabolite exists, never loses a reaction, and leaves its transporter in the model |
| BasicModel.AddTransporter | steps/6_basic_model.py:220-229 | the transporter is appended with the metabolite's name, unless one with its id exists; a missing '_e' metabolite is a KeyError |
| BasicModel.AddAminoAcidTransporters | steps/6_basic_model.py:219-229 | the loop adds the transporters in order, stopping at the first failure |
| BasicModel.AddTransportersStops | steps/6_basic_model.py:219-220 | amino acids after the failing one add nothing |
| BasicModel.AllExtracellularMeaning | steps/6_basic_model.py:219-220 | the recursive check holds exactly when every amino acid has its '_e' metabolite |
| BasicModel.AddTransportersFails | steps/6_basic_model.py:219-220 | the loop succeeds exactly when every amino acid has its '_e' metabolite |
| BasicModel.AddTransportersKeeps | steps/6_basic_model.py:219-229 | no reaction is lost or changed |
| BasicModel.AddTransportersFinds | steps/6_basic_model.py:219-229 | on success every amino acid's transporter is in the model |
| BasicModel.AddGenericGenes | steps/6_basic_model.py:137-229 | the cellulosome rule is extended and then the transporters are added |
| Proteomics.ColumnIndex | steps/find_active_proteins.py:82 | a column letter A-Z becomes its 0-based position in the alphabet (A is 0, Z is 25) |
| Proteomics.ParseSheet | steps/find_active_proteins.py:80-86 | reading fails exactly when the column is past the sheet's width and some row is read; otherwise the ids are exactly the cells of that column from row row_start on that start with 'Clo1313' |
| Proteomics.CollectIds | steps/find_active_proteins.py:29-38 | the loop collects every dataset's ids into the multiset counted by Counter and the set of unique genes |
| Proteomics.DetectedCount | steps/find_active_proteins.py:35-55 | an id's count is the number of datasets containing it, and it is a unique gene exactly when that number is at least one |
| Proteomics.BuildGeneDicts | steps/find_active_proteins.py:41-48 | the loop builds both dictionaries from the rows with an old locus tag, the last row winning |
| Proteomics.OldTagKeys | steps/find_active_proteins.py:46-48 | the keys are exactly the non-empty old locus tags |
| Proteomics.IsGenIgnoresCase | steps/find_active_proteins.py:62 | the product is compared in lower case |
| Proteomics.IsGenMissing | steps/find_active_proteins.py:59-63 | a missing product is never marked |
| Proteomics.IsGenFlags | steps/find_active_proteins.py:60-63 | a product containing any marker, ignoring case, is marked 'y' |
| Proteomics.IsGenMisspelt | steps/find_active_proteins.py:60-63 | as written, a product 'transcription' is not marked, while the intended marker list marks it |
| Proteomics.DetectedGenes | steps/find_active_proteins.py:51-76 | intended (with the marker spelt 'transcription', see Findings): the table has one row per unique gene, in some order of the set, with its new id, count, product, generic flag and model reactions, sorted by count |
| Proteomics.TableMeaning | steps/find_active_proteins.py:53-76 | every unique gene has exactly one row; counts lie between 1 and the number of datasets; rows are in descending count order |
| Compare.FirstElem | analysis/compare_gems/compare.py:109-112 | a list gives its first element, and an empty list raises IndexError; anything else is returned as it is |
| Compare.FirstElemSingleton | analysis/compare_gems/compare.py:109-112 | a one-element list and its element give the same label |
| Compare.CollectNoteKeys | analysis/compare_gems/compare.py:84-86 | a key is collected exactly when some reaction's notes have it |
| Compare.ChooseKey | analysis/compare_gems/compare.py:87-93 | 'CONFIDENCE LEVEL' is preferred, then 'confidence_level', else no key |
| Compare.ChooseKeyOrderFree | analysis/compare_gems/compare.py:87-93 | the choice depends only on which keys occur, not on their order or repetition |
| Compare.Shown | analysis/compare_gems/compare.py:95 | a string note is shown as itself and a single-digit int note as its digit (the int 2 counts under "2"); floats and lists match no label |
| Compare.LabelsOk | analysis/compare_gems/compare.py:95 | the labels fail exactly when some reaction's confidence note is an empty list, and otherwise there is one label per reaction |
| Compare.MissingCountedAsNone | analysis/compare_gems/compare.py:95-105 | reactions without the note (default ['']) are counted under 'cl none' |
| Compare.LevelsWithinReactions | analysis/compare_gems/compare.py:100-105 | the six counts add up to at most the number of reactions |
| Compare.Lethal | analysis/compare_gems/compare.py:76-80 | the lethal deletions are at most all of them |
| Compare.LethalExtremes | analysis/compare_gems/compare.py:76-80 | when every growth is below the minimum all deletions are lethal, and when none is, none is |
| Compare.LethalMonotone | analysis/compare_gems/compare.py:76-80 | a higher minimum growth never makes fewer deletions lethal |
| Compare.UnionOf | analysis/compare_gems/compare.py:84-86 | a key is in the union exactly when some reaction's notes have it |
| Compare.GetCol | analysis/compare_gems/compare.py:50-106 | get_col computes the column of the model, given the deletion results |
| Compare.ColumnFails | analysis/compare_gems/compare.py:73-112 | a model without reactions raises ZeroDivisionError; otherwise the column fails, with IndexError, exactly when a key was chosen and some reaction's note under it is an empty list |
| Compare.ColumnSizes | analysis/compare_gems/compare.py:57-73 | the counts of genes, metabolites and reactions are copied, and the blocked fraction lies in [0, 1] |
| Compare.ColumnFractions | analysis/compare_gems/compare.py:75-80 | the lethal-gene fraction is -1 exactly when there are no genes, and both lethal fractions otherwise lie in [0, 1] |
| Compare.ColumnNoConfidence | analysis/compare_gems/compare.py:96-98 | without a confidence key all six counts are -1 |
| Compare.ColumnConfidence | analysis/compare_gems/compare.py:95-105 | with a key the six counts are non-negative, add up to at most the number of reactions, and 'cl none' counts at least the reactions without the note |
| Compare.GetTable | analysis/compare_gems/compare.py:39-47 | the table has each model's column in order, or fails with the error of some model's column |
| Coexpression.Copy | analysis/flux_and_proteomics/coexpression_analysis.py:39 | the copy is a new matrix with the same entries, so the caller's matrix is left alone |
| Coexpression.FillDiagonal | analysis/flux_and_proteomics/coexpression_analysis.py:41 | the diagonal becomes 0 and every other entry is kept |
| Coexpression.ZeroWeak | analysis/flux_and_proteomics/coexpression_analysis.py:42 | entries of magnitude below the cutoff become 0 and the others are kept |
| Coexpression.FromMatrix | analysis/flux_and_proteomics/coexpression_analysis.py:44 | every non-zero off-diagonal entry gives an undirected edge, the entry read later (below the diagonal) setting the weight |
| Coexpression.EdgeStep | analysis/flux_and_proteomics/coexpression_analysis.py:44 | reading one more entry extends the edges read so far |
| Coexpression.RowDone | analysis/flux_and_proteomics/coexpression_analysis.py:44 | a finished row moves the scan to the next one |
| Coexpression.Linked | analysis/flux_and_proteomics/coexpression_analysis.py:47 | a node is kept exactly when some edge touches it |
| Coexpression.BuildNetwork | analysis/flux_and_proteomics/coexpression_analysis.py:33-48 | a non-square matrix is an error; otherwise the graph is the thresholded network of the matrix without isolates |
| Coexpression.EdgeProperties | analysis/flux_and_proteomics/coexpression_analysis.py:41-47 | an edge joins two distinct kept nodes and carries one of the two matrix entries, non-zero and at least the cutoff in magnitude |
| Coexpression.SymmetricWeights | analysis/flux_and_proteomics/coexpression_analysis.py:44 | on a symmetric correlation matrix the weight is the correlation |
| Coexpression.NoIsolates | analysis/flux_and_proteomics/coexpression_analysis.py:47 | every node of the network has an edge |
| Coexpression.Keep | analysis/flux_and_proteomics/coexpression_analysis.py:63-79 | 'all' keeps the graph; 'positive' keeps exactly the edges of non-negative weight, 'negative' those of non-positive weight; any other value raises ValueError; nodes are never removed |
| Coexpression.WriteNetwork | analysis/flux_and_proteomics/coexpression_analysis.py:50-79 | the collecting and removing loops leave the filtered graph |
| Coexpression.SignsPartition | analysis/flux_and_proteomics/coexpression_analysis.py:63-79 | on a network the positive and negative edge sets are disjoint and together make up all edges |
| Coexpression.KeepIdempotent | analysis/flux_and_proteomics/coexpression_analysis.py:63-79 | filtering twice equals filtering once |

## Left out

- Linear programming: optimisation, flux variability, pFBA and single gene or reaction deletion are done by the solver library. Their results (blocked reactions, deletion growth rates) are parameters, and find_tics and the is_blocked and TIC columns of the curation table are not modelled.
- The cobra library's own algorithms are abstracted, not modelled: parsing equation strings (`build_reaction_from_string`, `reaction = ...`) is a parameter `parse` or a builder, GPR parsing and the genes it creates are not modelled (the evaluation of a rule that `Gene.knock_out` needs is a parameter `RuleEval`: the genes a rule names and whether it holds), `prune_unused_metabolites` is not modelled, and metabolites and genes created as a side effect of an assignment are not modelled.
- cobra's bound checks on assignment (lower above upper raises) are not modelled; bounds are stored as given.
- `ast.literal_eval` of DB_links is a parameter; a literal that fails to parse is one of its results.
- File, spreadsheet and network I/O, CSV and JSON serialisation, `print` and plotting are left out; the rows read are parameters. The KEGG and ChemAxon calls of steps/3_calc_met_charge.py are left out for the same reason.
- Floating point is modelled as exact reals, so rounding in the sums and divisions is not captured; float parsing of numbers in CSV cells is abstracted to given values.
- Python's `is` on strings is modelled as `==` (constraint mode, 'all' secretion, edges_to_keep), except in the finding on tools/ms2bigg.py:49.
- The order in which a Python set or dict-key view is listed is not modelled: `ListOf` returns some listing of the set, and `Proteomics.DetectedGenes` states its table for some order of the unique genes.
- pandas' sort is not stable; the sorted tables are stated as sorted permutations of their rows, and the order of rows with equal keys is left open.
- `Metadata.WriteMetaboliteRows`: a reaction's metabolites are visited in the model's metabolite order, not the reaction's own dict order.
- tools/conf_model.py: set_cellulosome (solver constraints), delete_hydg (library reaction parsing), set_experimental_data (a CSV read composing set_conditions, the flux bounds and knock_out_genes) and set_all_biomass_gam (a loop calling set_reaction_gam) are not modelled.
- `Corrections.CitrateExchange`: the SBO annotation add_boundary attaches and its check that cit_e lies in the external compartment are not modelled; the exchange carries no annotation.
- iCBI/3_corrections.py: the PGCM/GRTT deletions, the ABC-transporter repairs, the SHCHD2 rebuild, the flux test and the note re-adding loop are fixed literal edits through the library and are not modelled; the model covers the duplicate-pair detection and the CITt2 and FE2OR edits.
- iCBI/4_metadata_and_mass_imbalance.py: the GenBank gene annotation (lines 183-192), the iSG formula and name copies before line 126, and the fdxr charge fixes (lines 222-223) are not modelled.
- steps/4_upgrade_nomenclature_and_metadata.py and steps/6_basic_model.py: remove_unused_met and change_met_name are not modelled (library pruning and a fixed rename); the substituted JSON text is modelled line by line, without the re-load of the model.
- steps/4_upgrade_nomenclature_and_metadata.py:123 assigns a string to `gene.annotation`; the model stores the product in the gene's attributes instead.
- `Standardization.ConsolidateNonInt`: the loop of consolidate_non_int is bounded by a fuel parameter; `ConsolidateNeverDone` shows that while a poorly defined metabolite exists it never finishes, because the loop never changes the metabolites its test reads.
- `BasicModel.AddOldGeneIdsNote` and `BasicModel.OldGpr`: the regular expression is modelled as whole-word replacement, so the method requires every replaced locus tag to be a single word.
- `Proteomics.ParseSheet`: requires a start row of at least 1 and a column letter A-Z, as every call site passes.
- `Text.ParseInt` reads ASCII digits with single underscores between them; it does not strip surrounding whitespace, nor read the non-ASCII decimal digits (Arabic-Indic, fullwidth and the like), that Python's `int` also accepts.
- `MetCharge.ChargedFormulaHydrogens` and `MetCharge.ChargeRoundTrip` leave out a formula whose 'H' is followed by an explicit count of 1: there the n_h == 1 branch splits at the 'H' and keeps the '1', so 'C2H1Cl' with charge 1 becomes 'C2H21Cl' where 'C2H2Cl' is meant. `MetCharge.ExplicitCountOne` states what the code does there; get_charged_formula has no caller, so the defect is latent.
- `Metadata.ListText`: Python's `str` of a list escapes a backslash in a value and quotes a value holding a single quote with double quotes; the model writes every value verbatim between single quotes, so for such values the annotation text in `Metadata.FilledAnnotation` and `Metadata.FillMetaboliteAnnotations` differs from the script's.
- `ApplyCorrections.ApplyMetaboliteCorrections`, `ApplyCorrections.ApplyTable`, `ApplyCorrections.ApplyBothTables`, `Metadata.WriteMetaboliteRows`, `Nomenclature.SetGeneFields`, `Nomenclature.AddOldGprNotes`, `Nomenclature.AddGeneFields`: the lookups by id have no handler in the scripts; the methods require the ids to exist instead of modelling the KeyError.
- `Compare.Labels`: `str()` of a float or list note is not spelled out; such a note (for example 2.0 or ['2']) never prints as a level label, so it is counted under no level. An int note prints its digits and is counted under that level.
- `Compare.GetCol`: the `with model` context restores the model, so exchanges opened inside it are not modelled.
- `Compare.GetTable`: pd.concat with an inner join is modelled as the list of columns.
- `Coexpression.BuildNetwork`: relabelling nodes to the matrix's gene names (line 45) is not modelled, nodes stay indices, nor is the node-attribute table after line 90. Proteins the gene map does not know are labelled NaN (line 94), and the in-place relabelling merges nodes that share a label, so the relabelled graph can have fewer nodes and merged edges.
- Pearson correlation and edge-list writing in analysis/flux_and_proteomics/coexpression_analysis.py are left out.
- settings.py's constants (paths) are not modelled.
- `ConfModel.SegmentIds` is stated with the corrected guard of tools/conf_model.py:111 (see Findings): for a range whose end already has the prefix, such as 'Clo1313_0564-Clo1313_0575', the model expands the range, while the code as written raises ValueError (`FullRangeEndMangled` states that behaviour).
- `ConfModel.DeletedGeneIds` is stated with the same corrected guard, so the 'Clo1313_0564-Clo1313_0575' range that raises ValueError in the code as written is expanded.
- `ConfModel.KnockOutGenes` is stated with the same corrected guard: a knockout string with the range 'Clo1313_0564-Clo1313_0575' knocks out its genes here, while the code as written raises ValueError before any gene is touched.
- `Ms2Bigg.RenameDictOf` compares gene ids with `==` where tools/ms2bigg.py:49 uses `is`; the as-written dictionary, where 'Unknown' can map to 'U', is `GeneIdAsWritten` (see Findings).
- `Proteomics.DetectedGenes` flags generic products with the marker spelt 'transcription'; as written a 'transcription' product is not flagged (see Findings, `IsGenMisspelt`).
- `Cobra.Elements`: cobra gives no elements (None) for a formula with a parenthesis or a count `float()` cannot read, and the mass-balance check then raises ValueError; the mass balance here skips a parenthesis and reads such a count as 0. `ElementsOf` models cobra's None and `ElementsAgree` shows the two agree wherever cobra reads the formula; '*' is dropped by cobra and skipped here, which gives the same counts.
- `Standardization.BadMets`, and `Standardization.ConsolidateNonInt` which calls it: a metabolite with a nonzero integral charge and a formula cobra cannot read makes the source's test fail with AttributeError (None has no values); the model reads its elements as the mass balance does and never raises. Likewise, a nonzero charge held as a Python int (as JSON and SBML models load it) has no `is_integer` method before Python 3.12, so tools/standardization.py:87 raises AttributeError there; the model's charge is a real number, the test is read as Python 3.12 and later read it, and it never raises.
- `ApplyCorrections.CorrectMetabolite`: an empty curated_charge cell is NaN in pandas and is assigned as the charge, which check_mass_balance counts; the metabolite here gets a missing charge (None), as the next line explains.
- `ApplyCorrections.Corrected`, `Cobra.Composition`: an empty curated_charge cell is NaN in pandas and is assigned as the charge; the model has no NaN value and stores a missing charge (None), which the mass balance leaves out where a NaN would make the charge total NaN. The same holds for NaN correlations in analysis/flux_and_proteomics/coexpression_analysis.py:42: NaN is nonzero, so the source makes an edge of it, and the model has no such entry.
- `Standardization.MergeOne`, and through it `Standardization.MergeAll`, `Standardization.ConsolidatePass` and `Standardization.ConsolidateNonInt`: cobra's `Reaction.__add__` joins the two gene rules as "(g1) and (g2)"; the merged reaction keeps the consumer's gene rule instead.
- `Ms2Bigg.RenameGenes` and `Ms2Bigg.ConvertModel`: after rename_genes rewrites the gene rules, cobra re-parses each rewritten rule, which can re-create a gene under a merged name; that re-parse is not modelled. The items of the rename dictionary are taken in gene order, the order in which the dictionary is built.

## Findings

| source | as written | input that shows it | evidently intended | confidence | as-written member | corrected member |
|---|---|---|---|---|---|---|
| tools/conf_model.py:111 | the guard `not s.startswith('Clo1313') or not s.startswith('CLO1313')` is always true, so the range end is always prefixed | 'Clo1313_0564-Clo1313_0575': the end becomes 'Clo1313_Clo1313_0575', unknown to the gene map, and `int('_0575')` raises ValueError | prefix only an abbreviated end (`and`) | high, not executed | ConfModel.FullRangeEndMangled | ConfModel.FullRangeEndCorrected |
| steps/3_calc_met_charge.py:238 | in get_charged_formula, which nothing calls, `final_n_h = n_h + charge` adds the charge as read, a string, instead of the parsed `chargeint` | a caller passing the text '1' and a formula containing 'H2' gets TypeError; get_charged_formula has no caller in the script, so the defect is latent | add `chargeint` | high, not executed | MetCharge.TextChargeRaises | MetCharge.ChargedFormulaHydrogens |
| tools/ms2bigg.py:49 | `gene.id is 'Unknown'` tests identity; an id read from a file is a different object | the gene 'Unknown' is renamed 'U' | compare with `==` | medium, not executed | Ms2Bigg.UnknownGeneTruncated | Ms2Bigg.GeneIdProperties |
| steps/6_basic_model.py:124 | `gene.Name = ...` creates a new attribute | any gene in the table keeps its old name | assign `gene.name` | high, not executed | BasicModel.NameAsWrittenIgnored | BasicModel.UpdateGeneNames |
| steps/find_active_proteins.py:60 | the marker 'trasncription' is misspelt | the product 'transcription' is not flagged | 'transcription' | high, not executed | Proteomics.IsGenMisspelt | Proteomics.IsGenFlags |
