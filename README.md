# rs@md reactive-step core in Dafny

rs@md is a hybrid Monte Carlo / molecular dynamics driver. It runs an external
MD engine (GROMACS) between reactive steps. In each reactive step it reads the
system's topology and finds reaction candidates, that is, sets of molecules that
can react according to reaction templates read from a file. It then accepts some
candidates and reacts them, writes the new topology and asks the engine to relax
it. This project models the bookkeeping of that loop and proves properties of
the model:

- **Containers.** The molecule (`molecule.dfy`), the topology with its cell list
  and its sort-and-renumber pass (`topology.dfy`, `cell_grid.dfy`,
  `renumbering.dfy`, `stable_sort.dfy`).
- **Reactions.** Reaction templates and their consistency check
  (`reaction.dfy`), and reaction candidates with their rate lookup, reactant
  binding and atom transitions (`candidate.dfy`).
- **Candidate search and reactions.** The universe: the cell-based candidate
  search, availability, `react` and making a molecule whole across periodic
  boundaries (`universe.dfy`, `candidate_search.dfy`, `periodic.dfy`).
- **Random selection.** The weighted shuffle and the weighted choice, with the
  draws given as inputs (`random.dfy`).
- **Simulators.** The rate and Metropolis reactive steps, the cycle loop and
  the MD-sequence choice (`simulator.dfy`).
- **Parsers.** The reaction-file parser (`reaction_parser.dfy`) and the GROMACS
  `.top`/`.gro`/index readers and writers (`topology_parser.dfy`), on top of a
  model of the C++ stream operators (`numbers.dfy`) and of `trimString` and
  `splitString` (`utility.dfy`).
- **Configuration.** The program-option rules (`parameters.dfy`), the unit
  system (`unit_system.dfy`) and the run-time report (`controller.dfy`).

Objects that the C++ code updates in place are classes with `modifies`
clauses: the topology, the universe, the simulator and the topology parser.
Value types copied by value (atoms, molecules, reaction templates and
candidates) are datatypes, and their mutators return the updated value. C++
`float`/`double` values are Dafny reals. Randomness, the MD engine's answers,
the Boltzmann factor and signals are inputs of each cycle. The calls made on
the engine are recorded in a log. An `Err` result stands for the ways the code
gives up on an operation:

- `rsmdEXIT` and a thrown exception end the program or the operation.
- `rsmdCRITICAL` raises `SIGABRT` (`src/definitions.hpp:33`). The signal
  handler returns on its first and second calls and exits with status 6 on
  the third (`src/control/controller.cpp:21-42`). A critical error during
  setup is therefore modelled as `Err`, standing for "`SIGNAL` becomes 6 and
  `Controller::start` skips the run" (`src/control/controller.cpp:81-87`).
  The code that runs after the handler returns is left out, except for the
  directive of a '[' line without ']' (`ReactionParser.DirectiveAfterSignal`).

A few behaviours of the code shape the model:

- The candidate search calls the weighted shuffle with an empty weight range,
  so the order is unchanged: candidates come cell by cell, then template by
  template.
- In the rate step a failed relaxation raises `SIGABRT`, which goes through
  the signal handler, and the cycle loop then stops. The Metropolis step
  counts a failed relaxation as a rejection and carries on.
- The Metropolis step calls `searchReactionCandidates`, which is not defined
  in the visible source. The model gives that step the cell-search
  candidates, as the rate step uses.
- `Controller::stop` divides the run time by the number of completed cycles
  (`getNCycles` returns `nCyclesCompleted`), not by the configured cycle count.
- Where the code has one of the defects listed under "## Findings", the
  operations on the main path use the corrected behaviour, and their rows
  below say "(corrected; see Findings)". Each defect is also modelled as
  written, by the member named in its Findings row.

## Model

| member | source | states |
|---|---|---|
| Utility.TrimLeftIsSuffix | src/enhance/utility.cpp:11-15 | the front loop skips exactly the leading whitespace: what remains is the suffix after it and starts with a non-space or is empty |
| Utility.TrimRightIsPrefix | src/enhance/utility.cpp:16-20 | the back loop drops exactly the trailing whitespace: what remains is a prefix ending in a non-space or is empty |
| Utility.TrimmedShape | src/enhance/utility.cpp:6-23 | the trimmed string has no whitespace at either end and is the contiguous slice of the input between the leading and trailing runs |
| Utility.TrimIdempotent | src/enhance/utility.cpp:12-20 | trimming a trimmed string changes nothing |
| Utility.TrimEmptyIffAllSpace | src/enhance/utility.cpp:12-20 | the result is empty if and only if every character of the input is whitespace |
| Utility.TrimString | src/enhance/utility.cpp:6-23 | the two iterator loops compute the trimmed string: no edge whitespace, and a contiguous substring input[i..j] |
| Utility.FirstIndexOf | src/enhance/utility.cpp:36 | the position of the first occurrence of the character, or the length when there is none; no earlier position holds it |
| Utility.Find | src/enhance/utility.cpp:36 | std::string::find from a position: the first occurrence at or after it, or None when no later character matches |
| Utility.OccurrencesAppend | src/enhance/utility.cpp:27-44 | the delimiter count of a concatenation is the sum of the counts |
| Utility.JoinSplit | src/enhance/utility.cpp:33-41 | joining the pieces of splitString with the delimiter gives back the input exactly |
| Utility.SplitShape | src/enhance/utility.cpp:27-44 | splitString yields one more piece than there are delimiters, and no piece contains the delimiter |
| Utility.SplitEmpty | src/enhance/utility.cpp:33-41 | the empty input yields exactly one empty piece |
| Utility.SplitStep | src/enhance/utility.cpp:36-40 | one pass of the do-while loop: the piece up to the next delimiter, then the split of the rest after it |
| Utility.SplitLast | src/enhance/utility.cpp:36-41 | with no delimiter left, the rest of the input is the last piece |
| Utility.SplitString | src/enhance/utility.cpp:27-44 | the do-while loop over currentPosition and nextDelimiter computes Split, with occurrences + 1 pieces |
| Utility.HasSubstringIff | src/parser/topologyParserGMX.cpp:120-130 | the find(word) != npos test holds if and only if the word occurs at some position of the line |
| Molecules.SetID | src/container/molecule.hpp:39-41 | after setID, getID returns the id; name and atoms are unchanged |
| Molecules.SetName | src/container/molecule.hpp:40-42 | after setName, getName returns the name; id and atoms are unchanged |
| Molecules.SettersCommute | src/container/molecule.hpp:39-42 | setID and setName touch separate fields: in either order they give the molecule with that id, that name and the same atoms |
| Molecules.AddAtom | src/container/molecule.hpp:47 | addAtom(a) appends a at the end and leaves the existing atoms, id and name unchanged |
| Molecules.AddNewAtom | src/container/molecule.hpp:48 | addAtom(id, name) appends one default atom carrying exactly that id and name and leaves the existing atoms unchanged |
| Molecules.ContainsAtomId | src/container/molecule.cpp:55-59 | containsAtom(id) holds if and only if some atom has the id |
| Molecules.ContainsAtomName | src/container/molecule.cpp:61-65 | containsAtom(name) holds if and only if some atom has the name |
| Molecules.GetAtom | src/container/molecule.cpp:17-23 | getAtom(id) succeeds if and only if an atom has the id (otherwise fatal), and returns an atom of the molecule with that id |
| Molecules.AddedAtomIsFound | src/container/molecule.cpp:17-23 | after addAtom(id, name) the id is contained; getAtom finds the new atom unless an earlier atom has the id, in which case it still finds the earlier one |
| Molecules.RemoveAtomById | src/container/molecule.cpp:40-44 | the remove_if/erase pass keeps exactly the atoms without the id, in their order |
| Molecules.RemovedById | src/container/molecule.cpp:40-44 | after removeAtom(id) no atom has the id, every other atom is kept, and the size drops by the number of matches |
| Molecules.CountNegation | src/container/molecule.cpp:43 | the atoms failing "id differs" are exactly the atoms with the id |
| Molecules.RemoveAtomRef | src/container/molecule.cpp:35-38 | removeAtom(Atom&) compares addresses: a reference into this molecule removes exactly that element, any other reference removes nothing |
| Molecules.ComparisonById | src/container/molecule.hpp:78-79 | operator< and operator> compare ids only, are converse to each other, and neither holds for equal ids |
| Topologies.RemovedMolecules | src/container/topology.cpp:153-156 | removing by id drops exactly the molecules with that id, keeps the others, and the size drops by the number of matches |
| Topologies.CountMoleculeNegation | src/container/topology.cpp:155 | the molecules failing "id differs" are exactly those with the id |
| Topologies.RemovedMatching | src/container/topology.cpp:148-151 | removing by molecule drops exactly the molecules equal to it in both id and name and keeps the others |
| Topologies.AtomIdsCount | src/container/topology.hpp:100-103 | listing the atom ids molecule by molecule gives one id per atom |
| Topologies.Topology.constructor | src/container/topology.hpp:32-34 | a new topology has no molecules, no records and a zero box |
| Topologies.Topology.SetDimensions | src/container/topology.hpp:40 | setDimensions stores the box and changes nothing else |
| Topologies.Topology.SetCellNumbers | src/parser/topologyParserGMX.cpp:217 | the cell counts are stored as given and nothing else changes |
| Topologies.Topology.AddReactionRecord | src/container/topology.hpp:46-49 | addReactionRecord(id) appends exactly the pair (id, 0) and changes nothing else |
| Topologies.Topology.GetReactionRecordMolecule | src/container/topology.cpp:20-25 | the new id of a record for the old id; succeeds if and only if such a record exists, otherwise fatal |
| Topologies.Topology.ClearReactionRecords | src/container/topology.hpp:135-139 | both record lists become empty; molecules and box are untouched |
| Topologies.Topology.AddMolecule | src/container/topology.hpp:57-60 | addMolecule(m) appends m at the end; earlier molecules are unchanged and the returned position is the new one |
| Topologies.Topology.AddNewMolecule | src/container/topology.hpp:61-67 | addMolecule(id, name) appends one empty molecule with that id and name |
| Topologies.Topology.SetMoleculeAt | src/container/topology.cpp:130-141 | a write through the returned reference replaces that molecule only |
| Topologies.Topology.ContainsMoleculeId | src/container/topology.cpp:174-186 | containsMolecule(id) holds if and only if some molecule has the id |
| Topologies.Topology.ContainsMolecule | src/container/topology.cpp:161-172 | containsMolecule(mol) holds if and only if some molecule has mol's id and mol's name |
| Topologies.Topology.GetMolecule | src/container/topology.cpp:30-36 | getMolecule(id) succeeds if and only if a molecule has the id (otherwise fatal), and returns a molecule of the list with that id |
| Topologies.Topology.GetMolecules | src/container/topology.cpp:38-47 | getMolecules(name) returns exactly the molecules with that name, in list order |
| Topologies.Topology.GetAddMolecule | src/container/topology.cpp:130-141 | the first molecule with the id, leaving the list unchanged; if there is none, one molecule with the id and name is appended, so the size grows by at most 1 |
| Topologies.Topology.RemoveMolecule | src/container/topology.cpp:153-156 | the list becomes exactly the molecules without the id, in order |
| Topologies.Topology.RemoveMatchingMolecule | src/container/topology.cpp:148-151 | the list becomes exactly the molecules not matching mol in both id and name, in order |
| Topologies.Topology.Clear | src/container/topology.hpp:128-134 | clear empties the molecules and both record lists and zeroes the box |
| Topologies.Topology.GetMoleculeTypes | src/container/topology.cpp:191-201 | each molecule name exactly once, every name present, in the order of first occurrence |
| Topologies.Topology.Sort | src/container/topology.cpp:206-250 | the list becomes the stable sort by name renumbered 1..N with atoms 1..M; the atom records are cleared and refilled, and the molecule records are updated, as the loop does |
| Topologies.RenumberSorted | src/container/topology.cpp:215-249 | over the sorted molecules the loop yields exactly the renumbered list, the molecule records with the new ids of their molecules, and one atom record per atom of each recorded molecule |
| Topologies.Topology.GetCellList | src/container/topology.cpp:79-124 | Nx·Ny·Nz buckets, each holding exactly the molecules whose first atom lies in that cell, in list order, and for each cell its 27 neighbour indices with every axis wrapped by its own count (corrected; see Findings) |
| Topologies.Topology.NAtoms | src/container/topology.hpp:100-103 | getNAtoms: the count of all atoms of all molecules together, 0 for an empty topology |
| Topologies.PlaceMolecules | src/container/topology.cpp:93-101 | each molecule is appended to the bucket of its first atom's cell, so every bucket holds exactly its molecules in list order |
| Topologies.RenumberMoleculeAtoms | src/container/topology.cpp:238-248 | the atoms of one molecule get the next ids in order, the counter advances by their number, and a reacted molecule adds one (old id, new id) pair per atom |
| Topologies.FillNeighbours | src/container/topology.cpp:102-122 | the triple loop gives every cell (i, j, k) exactly the stencil of its neighbours (corrected; see Findings) |
| Topologies.FillPlane | src/container/topology.cpp:104-120 | the loop over the rows of plane k fills exactly the next nx * ny cells with their stencils and leaves the later ones empty (corrected; see Findings) |
| Topologies.FillRow | src/container/topology.cpp:106-119 | the loop over row j of plane k fills exactly the next nx cells with their stencils and leaves the later ones empty (corrected; see Findings) |
| Topologies.StencilsByPosition | src/container/topology.cpp:114-116 | neighbour lists filled by cell index are the stencils of the grid positions (corrected; see Findings) |
| Renumbering.NameKey | src/container/topology.cpp:214 | selecting by the sort key is selecting by name |
| Renumbering.SortedByName | src/container/topology.cpp:214 | the stable sort by name keeps the number of molecules |
| Renumbering.AtomCountAppend | src/container/topology.hpp:100-103 | the atom count of two lists together is the sum of their counts |
| Renumbering.AtomsBeforeStep | src/container/topology.cpp:238-248 | the running atom counter after a molecule has advanced by its atom count |
| Renumbering.InsertKeepsAtomCount | src/container/topology.cpp:214 | placing one molecule into a list adds exactly its atoms |
| Renumbering.SortKeepsAtomCount | src/container/topology.cpp:214 | sorting neither adds nor loses atoms |
| Renumbering.RenumberPrefixIds | src/container/topology.cpp:216-249 | after the first i molecules the atom ids given so far are 1, 2, … in order |
| Renumbering.RenumberIsDense | src/container/topology.cpp:216-249 | molecule ids become 1..N in order, atom ids 1..M in molecule order, and names and atom order are kept |
| Renumbering.SortOutcomeProperties | src/container/topology.cpp:206-249 | after sort the molecules are ordered by name, a permutation of the old ones, stable for equal names, with ids 1..N and atom ids 1..M |
| Renumbering.FindRecordByKeys | src/container/topology.cpp:226 | the record search depends only on the old ids of the records |
| Renumbering.SetRecord | src/container/topology.cpp:227-231 | setting the new id of the found record keeps the number of records |
| Renumbering.RecordsUpTo | src/container/topology.cpp:219-231 | the molecule record updates keep the number of records |
| Renumbering.LastWithId | src/container/topology.cpp:226-231 | the last molecule position before i with the id, with no later one before i |
| Renumbering.RecordsUpToAt | src/container/topology.cpp:226-231 | after the loop has visited i molecules, a record keeps its old id and its new id is the position of the last visited molecule with that old id, if its record is the first with that old id |
| Renumbering.RecordsKeepKeys | src/container/topology.cpp:226-231 | the old ids of the molecule records never change, so the search finds the same record throughout |
| Renumbering.AtomPairs | src/container/topology.cpp:242 | one (old atom id, new atom id) pair per atom |
| Renumbering.AtomRecordsExact | src/container/topology.cpp:209-247 | after the loop has visited i molecules the atom records are exactly the pairs of the atoms of reacted molecules; no other molecule adds one |
| Renumbering.AtomRecordsIncreasing | src/container/topology.cpp:240-242 | the new ids of the atom records increase strictly and do not exceed the atoms numbered so far |
| CellGrid.WrapIsPeriodic | src/container/topology.cpp:61-76 | right(n) = n+1 for n < N-1 and 0 at the end, left(n) = n-1 for n > 0 and N-1 at 0, both within 0..N-1 |
| CellGrid.Index | src/container/topology.cpp:99-114 | a grid position has an index i + j·Nx + k·Nx·Ny in 0..Nx·Ny·Nz-1 |
| CellGrid.LinearUnique | src/container/topology.cpp:114 | a + n·b determines a and b when 0 ≤ a < n |
| CellGrid.LinearBound | src/container/topology.cpp:114 | a + n·b < n·m when a < n and b < m |
| CellGrid.IndexNested | src/container/topology.cpp:114 | the index is i + Nx·(j + Ny·k) |
| CellGrid.LinearIndexInRange | src/container/topology.cpp:99 | the index formula as written lies in 0..Nx·Ny·Nz-1 for positions in the grid |
| CellGrid.IndexInjective | src/container/topology.cpp:114 | distinct grid positions have distinct indices |
| CellGrid.IndexSteps | src/container/topology.cpp:102-106 | the k, j, i loops visit the indices 0, 1, 2, … in turn, ending at Nx·Ny·Nz |
| CellGrid.CoordsOfIndex | src/container/topology.cpp:114 | decoding an index gives back the grid position it was built from |
| CellGrid.IndexOfCoords | src/container/topology.cpp:88-92 | every cell index decodes to a grid position that encodes back to it |
| CellGrid.Row | src/container/topology.cpp:112-117 | the innermost loop adds 3 entries |
| CellGrid.Plane | src/container/topology.cpp:110-118 | the middle loop adds 9 entries |
| CellGrid.StencilOf | src/container/topology.cpp:108-119 | the three nested loops add 27 entries |
| CellGrid.Stencil | src/container/topology.cpp:108-119 | the corrected stencil has 27 entries (corrected; see Findings) |
| CellGrid.StencilOfInRange | src/container/topology.cpp:108-119 | a stencil built from in-range axis values holds only valid cell indices |
| CellGrid.StencilInRange | src/container/topology.cpp:108-119 | every cell gets 27 neighbour entries, the first of which is the cell itself, all within the grid (corrected; see Findings) |
| CellGrid.StencilAt | src/container/topology.cpp:114-116 | the stencil of a cell index has 27 entries (corrected; see Findings) |
| CellGrid.Frac | src/container/topology.cpp:96-98 | p/d - floor(p/d) lies in [0, 1) |
| CellGrid.CellCoordInRange | src/container/topology.cpp:96-98 | with exact arithmetic and a positive box length, the cell coordinate along an axis lies in 0..count-1 |
| CellGrid.CellOfInRange | src/container/topology.cpp:93-101 | every molecule falls into one of the Nx·Ny·Nz cells |
| CellGrid.StencilAsWritten | src/container/topology.cpp:108-119 | the stencil as written, with the y axis wrapped by Nx, also has 27 entries |
| CellGrid.StencilAsWrittenOutOfRange | src/container/topology.cpp:110 | with 3×1×1 cells the stencil as written gives cell 0 the neighbour index 3, outside the three cells, while the corrected stencil stays in range |
| StableSort.Insert | src/container/topology.cpp:214 | insertion adds exactly one element |
| StableSort.SortBy | src/container/topology.cpp:214 | the sort keeps the length |
| StableSort.InsertPermutes | src/container/topology.cpp:214 | insertion adds exactly x to the multiset |
| StableSort.SortByPermutes | src/container/topology.cpp:214 | std::stable_sort only reorders: the result is a permutation of the input |
| StableSort.InsertSorted | src/container/topology.cpp:214 | inserting into a sorted list keeps it sorted |
| StableSort.SortBySorted | src/container/topology.cpp:214 | the result is ordered by key under a strict total order |
| StableSort.InsertStable | src/container/topology.cpp:214 | insertion puts x in front of the elements with the same key |
| StableSort.InsertStablePast | src/container/topology.cpp:214 | inserting past a smaller first key keeps the order of equal keys |
| StableSort.SortByStable | src/container/topology.cpp:213-214 | stability: for every key the elements with that key keep their relative order |
| StableSort.LexIrreflexive | src/container/topology.cpp:214 | no name is smaller than itself |
| StableSort.LexTransitive | src/container/topology.cpp:214 | std::string's operator< is transitive |
| StableSort.LexTotal | src/container/topology.cpp:214 | of two different names one is smaller |
| StableSort.LexIsStrictTotalOrder | src/container/topology.cpp:214 | the name comparison is a strict total order, so sorting by name is well defined |
| StableSort.RealLessIsStrictTotalOrder | src/parser/reactionParser.cpp:206 | comparing distances is a strict total order |
| Reactions.GetAdd | src/reaction/reactionBase.cpp:55-64 | the position of the first molecule with the id; the list is unchanged when one exists, otherwise exactly one molecule with the id is appended |
| Reactions.GetFirst | src/reaction/reactionBase.cpp:38-44 | find_if on the id succeeds if and only if some molecule has it, and returns a molecule of the list with that id; a miss is fatal |
| Reactions.GetAddReactant | src/reaction/reactionBase.cpp:55-64 | getAddReactant returns a reactant with the id, appends at most one reactant, keeps the earlier ones and touches no other part of the template |
| Reactions.GetAddProduct | src/reaction/reactionBase.cpp:66-75 | getAddProduct returns a product with the id, appends at most one product, keeps the earlier ones and touches no other part of the template |
| Reactions.GetAddIdempotent | src/reaction/reactionBase.cpp:55-64 | a second getAdd with the same id adds nothing and returns the same molecule |
| Reactions.GetReactant | src/reaction/reactionBase.cpp:38-44 | getReactant succeeds if and only if a reactant has the id, and returns the first reactant of the list with that id |
| Reactions.GetProduct | src/reaction/reactionBase.cpp:46-52 | getProduct succeeds if and only if a product has the id, and returns the first product of the list with that id |
| Reactions.GetAddThenGet | src/reaction/reactionBase.cpp:38-64 | the reactant getAddReactant returns is the one getReactant then finds |
| Reactions.AddTransition | src/reaction/reactionBase.cpp:79-82 | one row (oldMolix, oldix, newMolix, newix) is appended to the transition table and nothing else changes |
| Reactions.KindFor | src/reaction/reactionBase.cpp:90-111 | 1, 2, 3 and 4 atoms choose zone, distance, angle and dihedral; no other count has a class |
| Reactions.AddCriterion | src/reaction/reactionBase.cpp:86-115 | succeeds if and only if the list has 1 to 4 atoms; then exactly one criterion of the matching class is appended, holding the indices in order, the two thresholds and a latest value of 0 |
| Reactions.AddTranslation | src/reaction/reactionBase.cpp:118-122 | with exactly two index pairs, one row (first pair, second pair, value) is appended to the translation table and nothing else changes |
| Reactions.ConsistencyCheck | src/reaction/reactionBase.cpp:134-211 | reports nothing if and only if there is a reactant and a product and every atom named by a transition, translation or criterion exists and every criterion has min < max; otherwise reports the first failure in the order consistencyCheck visits them, with the 1-based atom the message prints |
| Reactions.FailureMeansInconsistent | src/reaction/reactionBase.cpp:134-211 | every reported failure is a genuine inconsistency |
| Reactions.FirstFailureUnique | src/reaction/reactionBase.cpp:134-211 | the failure reported is determined by the template: at most one failure is first |
| Candidates.LookupRate | src/reaction/reactionCandidate.cpp:33-39 | the loop starts with the first rate and keeps each entry's rate until an entry's distance exceeds d, giving the rate of the entry just before the first such entry, or the first rate if that is the first entry |
| Candidates.FirstWhereIs | src/reaction/reactionCandidate.cpp:34-38 | the first index where the loop breaks is the index before which no entry exceeds d |
| Candidates.RateOfSortedTable | src/reaction/reactionCandidate.cpp:26-40 | for a table sorted by distance: below the first distance the first rate; otherwise the rate of an entry at most d after which every entry exceeds d |
| Candidates.CurrentReactionRateValue | src/reaction/reactionCandidate.cpp:26-40 | the rate is the table lookup at the latest value of the first criterion |
| Candidates.UpdateReactant | src/reaction/reactionCandidate.cpp:58-76 | every reactant atom takes the id, position and velocity of the molecule's atom at its own id minus one, keeps its name, and the reactant takes the molecule's id; the other reactants and tables are unchanged |
| Candidates.BindFreshTemplate | src/reaction/reactionCandidate.cpp:57-69 | a template numbered 1..n bound to a molecule of n atoms copies, position by position, the molecule's atoms except their names, and takes the molecule's id |
| Candidates.ApplyTransition | src/reaction/reactionCandidate.cpp:87-89 | one row changes the data of one product atom and keeps the products' molecules, ids and atom counts |
| Candidates.Transitioned | src/reaction/reactionCandidate.cpp:85-90 | applying rows in order keeps the products' molecules, ids and atom counts |
| Candidates.ApplyTransitions | src/reaction/reactionCandidate.cpp:83-100 | the products become the result of applying every row in order; reactants and tables are unchanged |
| Candidates.LastTargeting | src/reaction/reactionCandidate.cpp:85-90 | the last row that targets a product atom, or -1 when no row does |
| Candidates.LastTransitionWins | src/reaction/reactionCandidate.cpp:85-90 | each product atom ends with the id, position and velocity of the source of the last row targeting it (keeping its name), and an atom no row targets is unchanged |
| Candidates.Valid | src/reaction/reactionCandidate.cpp:137-156 | true if and only if every criterion's measured value lies within its thresholds; the criteria up to and including the first failing one store their new value, the rest keep the old one, and the current distance becomes the first criterion's measurement |
| Random.Swap | src/enhance/random.hpp:67-68 | std::iter_swap keeps the length |
| Random.SwapPermutes | src/enhance/random.hpp:67-68 | a swap only reorders: same multiset |
| Random.Shuffled | src/enhance/random.hpp:61-72 | the first k steps of the shuffle keep the length |
| Random.ShuffledPermutes | src/enhance/random.hpp:58-73 | the shuffle's output is a permutation of its input |
| Random.ShuffledKeepsPassed | src/enhance/random.hpp:63-71 | positions already passed are never touched again: later steps keep the first k entries |
| Random.Zip | src/enhance/random.hpp:58-73 | pairing items with weights position by position |
| Random.SwapZip | src/enhance/random.hpp:67-68 | swapping the pairs is swapping items and weights at the same positions |
| Random.ShuffledInLockStep | src/enhance/random.hpp:58-73 | the weights are permuted in lock-step with the items |
| Random.WeightedShuffle | src/enhance/random.hpp:58-73 | the loop runs while both ranges remain, swapping each position with the one at its drawn offset (0 swaps nothing); items and weights end as the same shuffle of their old contents, and with no weights nothing moves |
| Random.SwapPair | src/enhance/random.hpp:67-68 | the two iter_swap calls exchange the same two positions in the items and in the weights, and nothing else changes |
| Random.IterSwap | src/enhance/random.hpp:67 | std::iter_swap exchanges the entries at the two positions of the array and leaves the rest as it was |
| Random.RandomChoice | src/enhance/random.hpp:77-83 | for a non-empty range the position lies in [first, last) at the drawn offset |
| Random.RandomWeightedChoice | src/enhance/random.hpp:86-93 | the offset lies in [0, number of weights) and names a positive weight |
| Numbers.SpaceRun | src/parser/reactionParser.cpp:46 | the length of the leading whitespace: every character before it is whitespace and the next one is not |
| Numbers.WordRun | src/parser/topologyParserGMX.cpp:114 | the length of the leading word: no whitespace before it, whitespace or the end after it |
| Numbers.Words | src/parser/topologyParserGMX.cpp:114 | what successive operator>> into strings extract: every piece is a non-empty run without whitespace |
| Numbers.WordsSkipSpace | src/parser/reactionParser.cpp:85 | a leading whitespace character does not change the words of a line |
| Numbers.WordsOfWord | src/parser/reactionParser.cpp:85 | a word followed by whitespace or the end is extracted first, then the words of the rest |
| Numbers.WordRunOfWord | src/parser/reactionParser.cpp:85 | the leading word of w + rest is exactly w when rest starts with whitespace |
| Numbers.WordsSkipSpaces | src/parser/topologyParserGMX.cpp:173 | any number of leading spaces does not change the words of a line |
| Numbers.WordsOfTwo | src/parser/topologyParserGMX.cpp:114 | two words with spaces between them are extracted as exactly those two words |
| Numbers.DigitChar | src/parser/topologyParserGMX.cpp:269 | the digit character written for a value below 10 has that value |
| Numbers.Decimal | src/parser/topologyParserGMX.cpp:269 | operator<< of a non-negative integer writes only digits, without a leading zero |
| Numbers.DecimalValue | src/parser/topologyParserGMX.cpp:173-269 | the digits operator<< writes have the value of the number written |
| Numbers.IntText | src/parser/topologyParserGMX.cpp:277-280 | operator<< of an int writes a non-empty text without whitespace |
| Numbers.ParseInt | src/parser/reactionParser.cpp:85 | only a non-empty word can be read as an int |
| Numbers.ParseIntText | src/parser/topologyParserGMX.cpp:114-173 | what operator<< writes for an int, operator>> reads back as the same int |
| Numbers.DigitRun | src/parser/topologyParserGMX.cpp:188 | the length of the leading digits: all digits, followed by a non-digit or the end |
| Numbers.Spaces | src/parser/topologyParserGMX.cpp:248-280 | n space characters |
| Numbers.PadLeft | src/parser/topologyParserGMX.cpp:269-280 | setw with right alignment: the width, or the text length if longer, with the text at the end |
| Numbers.PadRight | src/parser/topologyParserGMX.cpp:248-278 | setw with left alignment: the width, or the text length if longer, with the text at the front |
| Numbers.Substr | src/parser/topologyParserGMX.cpp:188-196 | substr(pos, n) succeeds if and only if pos is within the string, and gives at most n characters from pos |
| Numbers.RemoveSpaces | src/parser/topologyParserGMX.cpp:190-195 | remove_if with isspace then erase leaves no whitespace |
| Numbers.RemoveSpacesAppend | src/parser/topologyParserGMX.cpp:190-195 | removing whitespace distributes over concatenation |
| Numbers.RemoveSpacesOfSpaces | src/parser/topologyParserGMX.cpp:190-195 | padding spaces are removed completely |
| Numbers.RemoveSpacesOfWord | src/parser/topologyParserGMX.cpp:190-195 | a text without whitespace is kept unchanged |
| Numbers.PadLeftRecovered | src/parser/topologyParserGMX.cpp:195-279 | a name without whitespace written right-aligned is recovered by removing the whitespace of its column |
| Numbers.PadRightRecovered | src/parser/topologyParserGMX.cpp:190-278 | a name without whitespace written left-aligned is recovered by removing the whitespace of its column |
| Numbers.StoiPadded | src/parser/topologyParserGMX.cpp:188-280 | an int written right-aligned in any width is read back by std::stoi as the same int |
| Numbers.SpaceRunOfPad | src/parser/topologyParserGMX.cpp:188 | the leading whitespace of a padded text is exactly the padding |
| Numbers.DigitRunAll | src/parser/topologyParserGMX.cpp:188 | a text of digits is one run of digits |
| Numbers.ReadWord | src/parser/topologyParserGMX.cpp:114 | operator>> into a string takes the next word; on a failed or exhausted stream the stream fails and the target keeps its value |
| Numbers.ReadInt | src/parser/reactionParser.cpp:85-96 | operator>> into an int reads a numeric word as its value; when the stream fails the target keeps its value or is set to 0 |
| Numbers.ReadSize | src/parser/reactionParser.cpp:118-166 | operator>> into a std::size_t gives the old value, 0, or the number read, wrapped modulo 2^64 |
| Numbers.ReadReal | src/parser/reactionParser.cpp:147-198 | operator>> into a REAL stores the converted word when the conversion succeeds |
| Numbers.Stoi | src/parser/topologyParserGMX.cpp:188-196 | std::stoi skips leading blanks and succeeds exactly when a digit, or a sign followed by a digit, comes next; on a decimal word it gives that word's value |
| CandidateSearch.Cell | src/container/universe.cpp:257-269 | exactly the molecules of cell c with the name, in bucket order |
| CandidateSearch.Tagged | src/container/universe.cpp:249-250 | each molecule paired with the cell it came from |
| CandidateSearch.GatheredEntries | src/container/universe.cpp:241-253 | every gathered entry is a molecule of the name from the cell it is tagged with, which is one of the neighbour cells |
| CandidateSearch.GatheredAppend | src/container/universe.cpp:241-253 | gathering over two cell lists is gathering over each in turn, so a repeated neighbour cell gives repeated entries |
| CandidateSearch.CellNeighbours | src/container/universe.cpp:234-255 | two lists of equal length whose entries, paired, are the named molecules of each neighbour cell in turn, each with its cell |
| CandidateSearch.Build | src/container/universe.cpp:318-333 | the template copy with the first slots bound to the chosen molecules and the other reactants left as in the template |
| CandidateSearch.BuildCandidate | src/container/universe.cpp:331-333 | push_back of the template followed by updateReactant for each bound slot gives the built candidate: the template copy with the first slots bound and everything else, criteria included, as in the template |
| CandidateSearch.Options | src/container/universe.cpp:314-324 | every option for a slot fits the slot's template reactant |
| CandidateSearch.FilterNamed | src/container/universe.cpp:266 | a molecule is kept by the name filter if and only if it is in the list and has the name |
| CandidateSearch.OptionsAre | src/container/universe.cpp:314-440 | every option for slot s carries that slot's name and lies in its tagged cell, which is the seed cell for slot 0 and a neighbour of the seed for later slots |
| CandidateSearch.Expand | src/container/universe.cpp:325-335 | every binding kept by the option loop binds every slot and fits the template |
| CandidateSearch.Try | src/container/universe.cpp:326-334 | every binding kept after one option binds every slot and fits the template |
| CandidateSearch.BuildAll | src/container/universe.cpp:318-334 | one candidate per kept binding, each the bound template copy holding what its last slot's predicate measured |
| CandidateSearch.KeptMeasured | src/container/universe.cpp:331-334 | a kept candidate has one bound reactant per slot and differs from its template only in its reactants and its criteria's latest values, which are the values the last slot's predicate measured on those reactants (the template's where it measured none) |
| CandidateSearch.BuildAllAppend | src/container/universe.cpp:318-334 | the candidates of two binding lists are the two candidate lists appended |
| CandidateSearch.Admits | src/container/universe.cpp:328-451 | the skip rules: an option is admitted if and only if its id differs from every earlier slot's, no same-name earlier slot has a larger id, and, with 4 reactants, no same-name earlier slot has a larger cell index |
| CandidateSearch.BindSlot | src/container/universe.cpp:315-341 | the loop over a slot's options returns the candidates built from exactly the kept bindings, in loop order (corrected; see Findings) |
| CandidateSearch.SlotOptions | src/container/universe.cpp:314-324 | slot 0 draws from Cell of the seed cell, later slots from CellNeighbours |
| CandidateSearch.TryOption | src/container/universe.cpp:326-339 | a skipped option adds nothing; otherwise the candidate is kept, dropped or extended exactly as the slot predicate's verdict and the slot count decide, so no partially bound candidate survives, and a kept candidate holds in its criteria the values the predicate measured at its last slot |
| CandidateSearch.ExpandSound | src/container/universe.cpp:315-341 | every binding the option loop keeps extends the bound prefix by options that obey the skip rules and whose prefixes pass the slot predicate |
| CandidateSearch.TrySound | src/container/universe.cpp:326-339 | the same for the bindings kept after one option |
| CandidateSearch.ExtendsStep | src/container/universe.cpp:326-339 | a binding kept below an admitted option that passed its check extends the shorter prefix too |
| CandidateSearch.SearchSound | src/container/universe.cpp:312-458 | every kept binding binds every slot, slot 0 from the seed cell and later slots from its neighbours with their slot's names; the ids are pairwise distinct; a same-name pair has the smaller id first and, with 4 reactants, the cell index not larger; and every prefix passed its slot predicate |
| CandidateSearch.GatheredComplete | src/container/universe.cpp:241-253 | conversely to GatheredEntries, every molecule of the name in a listed neighbour cell is gathered, tagged with that cell |
| CandidateSearch.OptionsComplete | src/container/universe.cpp:314-324 | conversely to OptionsAre, every molecule with the slot's name in the seed cell (slot 0) or a neighbour cell (later slots) is an option for that slot |
| CandidateSearch.TryDropped | src/container/universe.cpp:327-333 | an option that breaks a skip rule or fails the slot predicate adds no candidate |
| CandidateSearch.TryKept | src/container/universe.cpp:330-333 | an option completing the binding that passes the predicate adds exactly one candidate, the bound template holding what the predicate measured |
| CandidateSearch.TryDeeper | src/container/universe.cpp:320-324 | an option short of a complete binding that passes the predicate adds what the next slot's loop adds |
| CandidateSearch.ExtendsKept | src/container/universe.cpp:312-458 | a binding built slot by slot under the skip rules and the slot predicate satisfies the pairwise id, name and cell rules |
| CandidateSearch.KeptExtends | src/container/universe.cpp:312-458 | conversely, a binding satisfying the pairwise rules passes every slot's skip rules |
| CandidateSearch.ExtendsHead | src/container/universe.cpp:327-333 | the molecule a binding puts in the next slot passes that slot's skip rules and predicate |
| CandidateSearch.ExtendsDeeper | src/container/universe.cpp:320-325 | a binding extending a prefix extends the one-longer prefix too, and its next molecule is an option for the next slot |
| CandidateSearch.ExpandComplete | src/container/universe.cpp:314-340 | a binding obeying the rules below the bound prefix whose next molecule is among the loop's options is found by the loop |
| CandidateSearch.TryComplete | src/container/universe.cpp:320-335 | such a binding is found once its own next molecule is tried |
| CandidateSearch.SearchComplete | src/container/universe.cpp:312-458 | conversely to SearchSound, every binding satisfying the kept-binding rules is found by the search: no valid candidate is missed |
| CandidateSearch.SearchExact | src/container/universe.cpp:312-458 | the search keeps a binding if and only if it satisfies the kept-binding rules |
| Periodic.Trunc | src/container/universe.cpp:187 | static_cast<int> truncates toward zero: the floor for non-negative values, minus the floor of the negation otherwise |
| Periodic.HalfUnits | src/container/universe.cpp:187 | an offset strictly between lo and hi half boxes gives a quotient strictly between lo and hi |
| Periodic.ExactUnits | src/container/universe.cpp:187 | an offset of exactly c half boxes gives the quotient c |
| Periodic.ShiftCoordProperties | src/container/universe.cpp:185-189 | each coordinate moves by an integer number of box lengths; an offset within half a box is left alone, one strictly between D/2 and D moves back by D, one strictly between -D and -D/2 moves forward by D, and an offset within (-D, D) ends within [-D/2, D/2] |
| Periodic.InsideBoxEndsWithinHalfBox | src/container/universe.cpp:185-189 | for a coordinate and a reference both inside the box, the shifted coordinate lies within half a box of the reference |
| Periodic.Whole | src/container/universe.cpp:176-197 | making a molecule whole keeps its id, name and atom count |
| Periodic.WholeKeepsReference | src/container/universe.cpp:179-189 | the reference atom does not move, and atoms change only their positions |
| Periodic.WholeIsCompact | src/container/universe.cpp:176-197 | a molecule whose atoms lie in the box comes out with every atom within half a box of the reference atom on each axis |
| Periodic.MakeMoleculeWhole | src/container/universe.cpp:176-197 | the atom loop, each atom measured against the front atom as it stands at that point, gives the whole molecule |
| Universes.HighestId | src/container/universe.cpp:218 | the largest molecule id of a non-empty list: no molecule's id exceeds it and some molecule carries it |
| Universes.Ids | src/container/universe.cpp:219-222 | the reactant ids in order |
| Universes.WithoutIdsMembers | src/container/universe.cpp:219-222 | after removing each reactant id in turn, exactly the molecules whose id is not a reactant id remain |
| Universes.Numbered | src/container/universe.cpp:223-226 | the products numbered highest + 1, highest + 2, … in order |
| Universes.NewRecords | src/container/universe.cpp:227 | one reaction record (highest + q + 1, 0) per product |
| Universes.WholeAll | src/container/universe.cpp:210-213 | every product made whole |
| Universes.AfterReact | src/container/universe.cpp:203-231 | react changes only the candidate's products and keeps their number |
| Universes.FilterKeepsUniqueIds | src/container/topology.cpp:153-156 | removing molecules keeps ids unique |
| Universes.WithoutIdsKeepsUniqueIds | src/container/universe.cpp:219-222 | removing every reactant id keeps ids unique |
| Universes.ReactedTopology | src/container/universe.cpp:218-230 | after react no molecule keeps a reactant id unless it is a new product, the kept molecules are old ones with ids at most the old maximum, every product id exceeds it, and unique ids stay unique |
| Universes.TemplateCandidateKept | src/container/universe.cpp:310-394 | a candidate of one template comes from a template with 2 to 4 reactants and is built from a kept binding |
| Universes.PerTemplate | src/container/universe.cpp:310 | one candidate list per template |
| Universes.PerCell | src/container/universe.cpp:279-285 | one candidate list per cell |
| Universes.CellCandidateKept | src/container/universe.cpp:295-482 | every candidate of a seed cell is built from a binding the search keeps for one of the templates with 2 to 4 reactants |
| Universes.AllCandidateKept | src/container/universe.cpp:271-293 | every candidate of the grid is built from a binding kept for some seed cell and some template |
| Universes.CandidateReactable | src/container/universe.cpp:271-293 | every candidate of the grid differs from one of the templates only in its reactants and in its criteria's latest values, has 2 to 4 reactants, and can be reacted when its template can |
| Universes.CandidateMeasured | src/container/universe.cpp:271-334 | every candidate of the grid holds in its criteria what the slot predicate measured on its own reactants at the last slot, so its current distance value, at which the rate is looked up, is the first measured value (the template's latest value only when nothing was measured) |
| Universes.SeedMolecule | src/container/universe.cpp:314-317 | a kept binding's first molecule is a molecule of the seed cell |
| Universes.BuiltCanReact | src/container/universe.cpp:318-319 | binding reactants keeps every transition's source atom in range and leaves the products as they were |
| Universes.SharedReactantUnavailable | src/control/simulatorRate.cpp:61-76 | after a reaction no molecule carries a reacted reactant's id, so a later candidate sharing that reactant is no longer available |
| Universes.CellsFromMolecules | src/container/universe.cpp:276-278 | cells built over the molecule list hold only molecules of that list, so every template fits them |
| Universes.NeighboursInRange | src/container/universe.cpp:276-278 | every neighbour list of the grid names cells of the grid |
| Universes.ThirdSlotLoopAsWritten | src/container/universe.cpp:369 | the loop as written, `for(k = 0; k < size; j++)`, tests a counter it never moves |
| Universes.ThirdSlotLoopNeverExits | src/container/universe.cpp:369 | with at least one option for the third slot, the loop as written does not exit however many passes it is given |
| Universes.ThirdSlotLoop | src/container/universe.cpp:369 | the loop as intended, advancing k |
| Universes.ThirdSlotLoopExits | src/container/universe.cpp:369 | the intended loop exits after size passes with k == size and j untouched |
| Universes.Universe.constructor | src/container/universe.hpp:21-31 | a new universe has two distinct empty topologies, the given templates and no cell list |
| Universes.Universe.Update | src/container/universe.cpp:80-88 | both topologies are cleared, the old one takes the state read for the cycle with its reaction records cleared, and the new one becomes a copy of it |
| Universes.Universe.Write | src/container/universe.cpp:94-98 | the new topology is sorted before it is written; the molecule and atom records it then holds, which the index file lists, are those sort leaves from the old records and molecules; the box and cell counts are kept |
| Universes.Universe.IsAvailable | src/container/universe.cpp:161-174 | true if and only if every reactant, by id and name, is still in the new topology |
| Universes.Universe.React | src/container/universe.cpp:203-231 | transitions applied and products made whole; the reactant ids are removed; products get ids above the old maximum and are appended with one reaction record each; the atom records, box and cell counts are kept |
| Universes.Universe.CellReactionCandidates | src/container/universe.cpp:295-482 | the candidates of one seed cell: those of each template with 2 to 4 reactants, in template order, each holding the values its last slot's predicate measured (corrected; see Findings) |
| Universes.Universe.CellSearchReactionCandidates | src/container/universe.cpp:271-293 | the cell list is the one getCellList builds over the old topology, and the result is the per-cell candidates in cell-index order, left in that order by the shuffle with an empty weight list (corrected; see Findings) |
| Universes.SeedCandidates | src/container/universe.cpp:310-479 | the template loop gives the candidates of every template in order (corrected; see Findings) |
| Universes.GridCandidates | src/container/universe.cpp:279-285 | the cell loop gives the candidates of every cell in cell-index order (corrected; see Findings) |
| Universes.RemoveReactants | src/container/universe.cpp:219-222 | removeMolecule for each reactant id in turn; records, box and cell counts are kept |
| Universes.AddProducts | src/container/universe.cpp:223-230 | each product gets ++highestMolID and is appended, with one (id, 0) reaction record each |
| Universes.MakeProductsWhole | src/container/universe.cpp:210-213 | every product made whole, in order |
| Universes.HighestIdOf | src/container/universe.cpp:218 | the max_element scan returns the highest id |
| Simulators.GridSeedsReady | src/container/topology.cpp:79-124 | the cell buckets and neighbour lists a cycle's update builds meet what the cell search needs: every neighbour index names a cell of the grid |
| Simulators.GridFits | src/container/topology.cpp:79-124 | every bucket holds only molecules of the cycle's list, so the templates fit the buckets as they fit the list |
| Simulators.CycleCandidatesReady | src/control/simulatorRate.cpp:54-55 | every candidate the search returns is a template with bound reactants, reactable under the configured algorithm and named after a template; a cycle with candidates has molecules |
| Simulators.CandidateReadyAt | src/container/universe.cpp:295-482 | the k-th candidate of the cell search is reactable and carries a template's name |
| Simulators.RateAccepts | src/control/simulatorRate.cpp:151-167 | a candidate is never accepted when frequency times its current rate is at most 0, and always when it is at least 1 (the draw lies in [0, 1)) |
| Simulators.MetropolisAccepts | src/control/simulatorMetropolis.cpp:110-131 | a non-positive Boltzmann condition never accepts, a condition of at least 1 always does |
| Simulators.Bumped | src/control/simulatorRate.cpp:65-71 | bumping the buckets for a name keeps one bucket per template (corrected; see Findings) |
| Simulators.BumpedSum | src/control/simulatorRate.cpp:65-71 | bumping for a name adds to the bucket total exactly the number of templates carrying that name |
| Simulators.CountNamed | src/control/simulatorRate.cpp:67 | a name carried by some template is counted at least once |
| Simulators.BumpBuckets | src/control/simulatorRate.cpp:65-71 | the loop over the templates increments the bucket of every template whose name matches, as Bumped specifies (corrected; see Findings) |
| Simulators.BumpedAsWritten | src/control/simulatorRate.cpp:43-44 | with the fixed eight buckets, a matching template at an index past the last bucket makes the increment fall outside the vector (modelled as None), and exactly then |
| Simulators.NinthTemplateOverflows | src/control/simulatorRate.cpp:43-44 | with nine or more templates, a candidate named after the ninth one writes past the eight buckets |
| Simulators.AsWrittenAgreesWithinEight | src/control/simulatorRate.cpp:43-44 | with at most as many templates as buckets, the fixed-size buckets agree with the per-template ones and the extra buckets stay untouched |
| Simulators.SumBuckets | src/control/simulatorRate.cpp:94-97 | the loop summing the buckets computes their sum |
| Simulators.RateVisit | src/control/simulatorRate.cpp:63-89 | one pass of the candidate loop keeps one attempted and one accepted bucket per template (corrected; see Findings) |
| Simulators.AvailableNonEmpty | src/container/universe.cpp:161-174 | a candidate found available in the topology implies the topology holds molecules |
| Simulators.RateScan | src/control/simulatorRate.cpp:61-92 | the candidate loop over the first n candidates keeps one attempted and one accepted bucket per template (corrected; see Findings) |
| Simulators.RateVisitBuckets | src/control/simulatorRate.cpp:63-84 | a pass never accepts more than it attempts per template; it adds one reacted candidate and raises the accepted total exactly when the candidate reacts, and otherwise changes neither (corrected; see Findings) |
| Simulators.RateScanBuckets | src/control/simulatorRate.cpp:61-105 | over the whole loop, accepted never exceeds attempted per template, and the accepted total is positive exactly when some candidate reacted (the test that decides the relaxation) (corrected; see Findings) |
| Simulators.ScanBucketsStep | src/control/simulatorRate.cpp:61-92 | the bucket agreement of the loop carries over one more candidate |
| Simulators.ZeroSum | src/control/simulatorRate.cpp:43-44 | buckets that start at zero sum to zero |
| Simulators.RateVisitKeepsGone | src/control/simulatorRate.cpp:63-76 | an id absent from the topology stays absent after any later pass, because products are numbered above the highest id |
| Simulators.RateVisitRemoves | src/control/simulatorRate.cpp:72-75 | the pass that reacts a candidate leaves none of its reactant ids in the topology |
| Simulators.GoneUnavailable | src/control/simulatorRate.cpp:63 | a candidate one of whose reactant ids is gone is not available |
| Simulators.ScanKeepsGone | src/control/simulatorRate.cpp:61-92 | a removed id stays removed over one more pass of the loop |
| Simulators.ScanRemoves | src/control/simulatorRate.cpp:72-75 | after the pass that reacts candidate j, its reactant ids are gone |
| Simulators.GoneFrom | src/control/simulatorRate.cpp:61-92 | once an id is removed at pass m it stays removed at every later pass, so a later candidate sharing a reacted molecule is never available |
| Simulators.CountNone | src/control/simulatorMetropolis.cpp:50 | a name carried by no candidate counts zero |
| Simulators.CountCandidates | src/control/simulatorMetropolis.cpp:50 | the accumulation counts the candidates carrying the name, and the count is positive exactly when some candidate carries it |
| Simulators.CountPerTemplate | src/control/simulatorMetropolis.cpp:47-52 | the counts map has exactly the template names as keys, each mapped to the number of candidates with that name |
| Simulators.NameInSnoc | src/control/simulatorRate.cpp:90-91 | the names of a prefix extended by one candidate are the old names plus the new candidate's name |
| Simulators.CandidateTypes | src/control/simulatorRate.cpp:90-91 | the candidate-type map has exactly the names of the candidates as keys, each with its positive number of candidates |
| Simulators.TypesStep | src/control/simulatorRate.cpp:90-91 | counting one more candidate under its name keeps the map equal to the per-name counts of the candidates seen so far |
| Simulators.CountNamedSnoc | src/control/simulatorRate.cpp:90-91 | one more candidate adds one to the count of its own name and nothing to any other |
| Simulators.ZeroPerTemplate | src/control/simulatorMetropolis.cpp:19-22 | the failed-relaxation map has exactly the template names as keys, all at 0 |
| Simulators.Weights | src/control/simulatorMetropolis.cpp:54-56 | one weight per candidate, in candidate order, each the Boltzmann factor of its activation energy |
| Simulators.MetropolisCalls | src/control/simulatorMetropolis.cpp:66-96 | the engine calls after a reaction start with the relaxation; a clean-up is made exactly when the cycle is not accepted, an energy computation exactly when the relaxation succeeded |
| Simulators.ResolveFacts | src/control/simulatorMetropolis.cpp:58-96 | the outcome's engine calls are appended; exactly one of accepted, rejected and failed-relaxation grows; only an acceptance moves the last reactive cycle; a failed relaxation is also counted under the reaction's name, from 0 for a new name |
| Simulators.ReactiveRunsNoMd | src/control/simulatorBase.cpp:110 | engine calls of a reactive step add no MD sequence run |
| Simulators.MdRunsAppend | src/control/simulatorBase.cpp:130-140 | appending an engine call counts one more MD sequence exactly when it is a plain or appending MD run |
| Simulators.ExtendsContinues | src/control/simulatorBase.cpp:110 | a log extended by reactive calls is continued without an initial MD run |
| Simulators.ContinuesTrans | src/control/simulatorBase.cpp:101-122 | continuing a log without an initial MD run is transitive |
| Simulators.PickIndex | src/control/simulatorMetropolis.cpp:58 | the weighted choice picks an index of the candidates whose weight is positive |
| Simulators.Chosen | src/control/simulatorMetropolis.cpp:58 | the candidate a Metropolis cycle reacts is reactable, named after a template, and the topology holds molecules |
| Simulators.GridCellsAre | src/container/universe.cpp:271-293 | the cell buckets the update builds are those of the cycle's grid |
| Simulators.GridNeighboursAre | src/container/topology.cpp:79-124 | the neighbour lists the update builds are those of the cycle's grid |
| Simulators.Simulator.constructor | src/control/simulatorBase.cpp:18-85 | a new run starts at cycle 1 with no reactive cycle; a restart continues at restartCycle with restartCycleFiles as the last reactive cycle; all counters start at 0, the signal handler has not run and no engine call is made; Metropolis has a failed-relaxation count of 0 for each template name |
| Simulators.Simulator.Deliver | src/control/controller.cpp:21-42 | every signal counts as one more call of the handler; the third call ends the process at once and stores nothing; any other call stores the signal in SIGNAL, and SIGUSR1 also marks the shutdown civilised; no signal arriving changes nothing; no other state changes |
| Simulators.Simulator.MdSequence | src/control/simulatorBase.cpp:130-140 | right after a reactive cycle a plain MD run is logged, otherwise an appending run from the last reactive cycle; nothing else changes |
| Simulators.Simulator.Search | src/control/simulatorRate.cpp:54-55 | update puts the cycle's molecules and box into the new topology, and the candidates are those of its cell grid |
| Simulators.Simulator.RateCandidate | src/control/simulatorRate.cpp:63-89 | one candidate of the loop updates the buckets, the reacted list, the draw count and the topology as RateVisit specifies; the acceptance test uses the rate at the candidate's current distance value, which for a searched candidate is the value its slot predicate measured (CandidateMeasured) (corrected; see Findings) |
| Simulators.Simulator.RateLoop | src/control/simulatorRate.cpp:61-92 | the candidate loop leaves the topology, records, buckets and reacted candidates as RateScan specifies (corrected; see Findings) |
| Simulators.Simulator.RateStep | src/control/simulatorRate.cpp:41-145 | the candidate-type map counts the cycle's candidates by name; with an accepted candidate the topology is written, the relaxation logged, and either the cycle becomes reactive and is counted, or SIGABRT is raised; otherwise the cycle is counted as one without reaction and nothing is logged (corrected; see Findings) |
| Simulators.Simulator.RateCycle | src/control/simulatorRate.cpp:57-143 | the same as RateStep, stated for candidates that are already found (corrected; see Findings) |
| Simulators.Simulator.RelaxWritten | src/control/simulatorRate.cpp:114-130 | after the write the relaxation is logged; a good one makes the cycle the last reactive one and counts it, a failed one raises SIGABRT through the handler; the Metropolis counters are kept |
| Simulators.Simulator.RateRelax | src/control/simulatorRate.cpp:105-143 | an accepted reaction writes and relaxes; a good relaxation makes the cycle the last reactive one and counts it, a failed one raises SIGABRT; without one the cycle counts as one without reaction |
| Simulators.Simulator.MetropolisStep | src/control/simulatorMetropolis.cpp:38-104 | without candidates nothing changes but the topology update; otherwise the counts map has the template names with their candidate counts, the chosen candidate is reacted and written, and the bookkeeping is resolved by the cycle's outcome |
| Simulators.Simulator.MetropolisCycle | src/control/simulatorMetropolis.cpp:44-101 | the same as MetropolisStep, stated for candidates that are already found, with the candidate picked by the weighted choice |
| Simulators.Simulator.MetropolisReact | src/control/simulatorMetropolis.cpp:62-96 | the topology loses the reactants, gains the products and is sorted, and the bookkeeping is resolved by the outcome |
| Simulators.Simulator.ReactAndWrite | src/control/simulatorMetropolis.cpp:62-65 | react then write leave the molecules as AfterReactAndWrite gives them, and the records as sort leaves them from the old records plus one fresh record per product; the box and cell counts are kept |
| Simulators.Simulator.PickCandidate | src/control/simulatorMetropolis.cpp:54-58 | the index picked is the weighted choice over the candidates' Boltzmann weights |
| Simulators.Simulator.ResolveCycle | src/control/simulatorMetropolis.cpp:66-96 | resolving the chosen candidate's cycle extends the engine log with reactive calls only, keeps the failed-relaxation tally keyed by exactly the template names, and moves the last reactive cycle only to the current one |
| Simulators.Simulator.MetropolisResolve | src/control/simulatorMetropolis.cpp:66-96 | the relaxation, energy computation, acceptance test and clean-up leave the bookkeeping as Resolve gives it, with the cycle counters untouched |
| Simulators.Simulator.Accept | src/control/simulatorMetropolis.cpp:72-73 | an accepted cycle becomes the last reactive cycle and adds one to the accepted count; nothing else in the bookkeeping changes |
| Simulators.Simulator.Reject | src/control/simulatorMetropolis.cpp:83-84 | a rejected cycle logs the clean-up and adds one to the rejected count; nothing else in the bookkeeping changes |
| Simulators.Simulator.FailRelaxation | src/control/simulatorMetropolis.cpp:91-93 | a failed relaxation logs the clean-up and adds one to the failed-relaxation count, in total and for the reaction's name (starting from 0) |
| Simulators.Simulator.Run | src/control/simulatorBase.cpp:92-123 | the initial MD run is made only at cycle 1; the loop ends past nCycles, on a signal or when the third signal ends the process; every completed cycle ran exactly one MD sequence; a pending signal stops the run before any cycle; without signals (and failed rate relaxations) every cycle up to nCycles is completed |
| Simulators.Simulator.RunCycle | src/control/simulatorBase.cpp:101-122 | a pending signal stops the cycle with nothing done; the process can end only on the third signal, arriving before the cycle, before any engine call of that cycle; a cycle that is not stopped advances the cycle and completed counters by one and runs exactly one MD sequence, and SIGNAL is non-zero exactly when the handler has run |
| Simulators.Simulator.EndCycle | src/control/simulatorBase.cpp:113-119 | a signal without civilised shutdown, or a third signal, stops the cycle with nothing logged; otherwise one MD sequence runs and both counters advance |
| Simulators.Simulator.ReactiveStep | src/control/simulatorBase.cpp:110 | the reactive step of the configured algorithm only appends reactive engine calls, moves the last reactive cycle to the current one or not at all, and raises at most SIGABRT |
| UnitSystems.NewUnitSystem | src/unitSystem.hpp:19-39 | the unit system is built exactly for the energy units kJ/mol, kJ, kCal/mol and kCal (any other throws); it keeps the four unit strings and its R is the kJ or the kcal gas constant, positive either way |
| UnitSystems.SameGasConstant | src/unitSystem.hpp:25-32 | the two constants are one gas constant expressed in kJ and in kcal (ratio 4.184 up to the doubles' last digit) |
| UnitSystems.DefaultUnits | src/unitSystem.hpp:19-32 | nm, ps, kJ/mol and K build a unit system whose R is the kJ constant |
| UnitSystems.GetR | src/unitSystem.hpp:16 | getR: for a unit system the constructor built, the gas constant of its energy unit (kJ or kcal), always positive |
| Controller.Decompose | src/control/controller.cpp:111-114 | the hours, minutes and seconds are normal (minutes and seconds below 60) and fall short of the run time by less than a second |
| Controller.DecomposeUnique | src/control/controller.cpp:112-114 | a normal hours-minutes-seconds value is the decomposition of every duration it truncates |
| Controller.DecomposeMillis | src/control/controller.cpp:112-114 | decomposing the milliseconds of a normal value gives it back |
| Controller.TimePerCycle | src/control/controller.cpp:124 | the time per cycle is defined exactly when a cycle completed, and is then the run time divided by the completed cycles, rounded down |
| Controller.StopTimes | src/control/controller.cpp:109-131 | stop reports a normal run time within a second of the elapsed time, and a normal time per cycle exactly when a cycle completed, which times the cycles does not exceed the run time |
| Parameters.Check | src/parameters/parameters.cpp:189-296 | settled options select GROMACS, a restart exactly when simulation.restart is set, and Metropolis exactly when reaction.mc is set |
| Parameters.CheckFirstViolation | src/parameters/parameters.cpp:189-296 | check settles the options exactly when they break no rule; a refusal names a rule that is broken, and the first one in the order check tests them |
| Parameters.RestartCyclesTogether | src/parameters/parameters.cpp:212-241 | settled options give simulation.restartCycle and simulation.restartCycleFiles exactly when simulation.restart is set |
| Parameters.AlgorithmParameterGiven | src/parameters/parameters.cpp:222-260 | settled options under Metropolis have rate off and a temperature given; under the rate algorithm rate on and a frequency given |
| TopologyParser.ToUInt | src/parser/topologyParserGMX.cpp:113-115 | storing the int count in the unsigned int map value keeps it modulo 2^32: below 2^32, and unchanged for counts already in range |
| TopologyParser.TopLine | src/parser/topologyParserGMX.cpp:101-143 | one line of read_top: after [system] the next non-empty line, trimmed, is the system name and ends the section; in [molecules] each non-empty line overwrites the map entry of its name and the section never ends; otherwise a '[' line with "molecules" selects [molecules] (even if it also holds "system"), one with only "system" selects [system], and the line is stored when recording |
| TopologyParser.MoleculesToTheEnd | src/parser/topologyParserGMX.cpp:109-116 | once in [molecules], every later line stays in [molecules] and changes neither the system name nor the stored lines |
| TopologyParser.NotRecordingKeepsContent | src/parser/topologyParserGMX.cpp:139-142 | without recording, no line is added to the stored content |
| TopologyParser.StoredOnFirstReadOnly | src/parser/topologyParserGMX.cpp:85-142 | the file's lines are stored on the first read only: when lines are already stored, read_top keeps them as they were |
| TopologyParser.MoleculeEntryRead | src/parser/topologyParserGMX.cpp:112-115 | a line "name count" with whitespace between the fields is read as exactly that entry |
| TopologyParser.LongNameRunsIntoCount | src/parser/topologyParserGMX.cpp:248 | as written, a five-character name runs into its count ("ABCDE12"), which reads back as one name with count 0 |
| TopologyParser.MoleculeLine | src/parser/topologyParserGMX.cpp:248 | the corrected section line equals the line as written whenever the name is shorter than five characters |
| TopologyParser.MoleculeLineRead | src/parser/topologyParserGMX.cpp:245-249 | every corrected section line is read back by read_top as the same name and count |
| TopologyParser.Section | src/parser/topologyParserGMX.cpp:245-249 | one line per molecule type, in the given order, each with the number of molecules of that name (corrected; see Findings) |
| TopologyParser.SectionReadBack | src/parser/topologyParserGMX.cpp:109-249 | reading the section write_top writes for distinct types adds exactly those types to the map, each with its molecule count, and keeps the other entries (corrected; see Findings) |
| TopologyParser.TopTextKeepsLines | src/parser/topologyParserGMX.cpp:233-255 | write_top writes every stored line, so the output is at least as long as the stored content |
| TopologyParser.Padded | src/parser/topologyParserGMX.cpp:180-185 | a 44-character line gets three "  0.0000" velocity columns, any other line is left alone |
| TopologyParser.GroIds | src/parser/topologyParserGMX.cpp:188-196 | a successful read of the id columns needs at least 15 characters; a missing column or a number that cannot be converted is fatal |
| TopologyParser.GroReal | src/parser/topologyParserGMX.cpp:197-202 | a column read needs its start within the line; a failed conversion is fatal |
| TopologyParser.GroVec | src/parser/topologyParserGMX.cpp:197-202 | three columns 8 apart are read, and all three start within the line |
| TopologyParser.GroLine | src/parser/topologyParserGMX.cpp:186-202 | an atom line that reads is at least 60 characters long |
| TopologyParser.ShortLineZeroVelocities | src/parser/topologyParserGMX.cpp:180-202 | a 44-character line that reads gets the velocity that "  0.0000" converts to in every component |
| TopologyParser.GroRecords | src/parser/topologyParserGMX.cpp:176-209 | reading n atom lines successfully gives exactly n records |
| TopologyParser.GroupAtom | src/container/topology.cpp:130-141 | getAddMolecule(resid, resname).addAtom: the atom joins the first molecule with the residue id (size unchanged) or a new molecule with that id and name holding only the atom; every other molecule is unchanged |
| TopologyParser.GroRecordsNext | src/parser/topologyParserGMX.cpp:177-209 | one more line read adds its record at the end |
| TopologyParser.GroRecordsFail | src/parser/topologyParserGMX.cpp:188-202 | a line that fails to read makes the read of that many records fail |
| TopologyParser.GroRecordsStop | src/parser/topologyParserGMX.cpp:177-209 | once a record fails, reading any larger number of records fails |
| TopologyParser.GroupAllNext | src/parser/topologyParserGMX.cpp:205-206 | records are added in file order, the last one on top of the earlier ones |
| TopologyParser.AtomCountUpdate | src/container/topology.hpp:100-103 | replacing one molecule changes the atom total by the difference in its atom count |
| TopologyParser.GroupAllCount | src/parser/topologyParserGMX.cpp:177-209 | every record read adds exactly one atom to the topology |
| TopologyParser.GroupAllDistinct | src/parser/topologyParserGMX.cpp:205 | grouping by residue id never creates a second molecule with an id already present |
| TopologyParser.TopologyParserGMX.constructor | src/parser/topologyParserGMX.hpp:27-28 | the system name and the stored lines start empty |
| TopologyParser.TopologyParserGMX.ReadTop | src/parser/topologyParserGMX.cpp:81-149 | a file that cannot be opened is fatal and changes nothing; otherwise the loop over the lines returns the map, system name and stored lines of the read_top state machine |
| TopologyParser.TopologyParserGMX.ReadGro | src/parser/topologyParserGMX.cpp:153-224 | a missing file or a bad record is fatal; otherwise the atom count of line 2 says how many records are read, they are grouped into the topology in order, and the box of the following line and its cell counts are set; the record lists are untouched |
| TopologyParser.ReadGroRecords | src/parser/topologyParserGMX.cpp:172-205 | the record loop succeeds exactly when all the counted records read, reads as many as the count (none for a count below 1) and groups them into the topology in order; the record lists are untouched |
| TopologyParser.AddGroRecord | src/parser/topologyParserGMX.cpp:205-206 | with the molecules grouped from the records so far, adding one record groups it in as well (GroupAtom: into the first molecule with its residue number, or a new one); the record lists are untouched |
| TopologyParser.GroRead | src/parser/topologyParserGMX.cpp:170-209 | the records read from a file are as many as its second line says (0 when it is negative) |
| TopologyParser.AtomLines | src/parser/topologyParserGMX.cpp:273-287 | one line per atom of every molecule: as many lines as getNAtoms |
| TopologyParser.MoleculeGroLines | src/parser/topologyParserGMX.cpp:275-286 | one line per atom of the molecule |
| TopologyParser.GroText | src/parser/topologyParserGMX.cpp:261-296 | the .gro file has the header, the count line, one line per atom and the box line |
| TopologyParser.GroCountReadBack | src/parser/topologyParserGMX.cpp:169-269 | the atom count written into the second line is the count read_gro reads from it |
| TopologyParser.GroIdsReadBack | src/parser/topologyParserGMX.cpp:188-280 | ids and names of up to five characters (names without whitespace) written in the 5-wide columns are read back unchanged by read_gro |
| TopologyParser.NumbersReadBack | src/parser/topologyParserGMX.cpp:310-314 | the numbers written each followed by a space are the words of the line, in order |
| TopologyParser.IndexFilesReadBack | src/parser/topologyParserGMX.cpp:300-320 | the reactants file lists the first ids of the atom records and the products file the second ids, in the same order, after the "[xxx]" header |
| TopologyParser.WriteTop | src/parser/topologyParserGMX.cpp:228-258 | the molecule types come in first-occurrence order, each once; the output is every stored line, followed by the system name after a [system] header and by the section of type counts after a [molecules] header (corrected; see Findings) |
| TopologyParser.MoleculesSection | src/parser/topologyParserGMX.cpp:244-249 | the section lists one line per type, in the order given, each with the number of molecules of that name (corrected; see Findings) |
| TopologyParser.TopLines | src/parser/topologyParserGMX.cpp:233-255 | the output holds every stored line in order, the system name right after a [system] header line and the whole section right after a [molecules] header line (corrected; see Findings) |
| TopologyParser.MoleculeEntry | src/parser/topologyParserGMX.cpp:112-115 | a [molecules] line gives its first word as the type name ("" for a blank line) and its second word as the count, read as an int and kept as an unsigned value below 2^32, 0 when there is no number |
| TopologyParser.TopFold | src/parser/topologyParserGMX.cpp:94-146 | the line loop never sets both sections at once, only appends to the stored lines and appends at most one per line |
| TopologyParser.TopResult | src/parser/topologyParserGMX.cpp:81-149 | read_top on a file keeps the lines stored before as a prefix and stores at most one line per line of the file |
| TopologyParser.TopText | src/parser/topologyParserGMX.cpp:233-255 | write_top writes at least every stored line, starting with the first one |
| TopologyParser.GroAtomLine | src/parser/topologyParserGMX.cpp:277-285 | each atom line of write_gro is at least 68 characters long, so every column read_gro reads is present |
| TopologyParser.GroAtomLineReadBack | src/parser/topologyParserGMX.cpp:277-285 | the residue id, residue name, atom name and atom id written into an atom line are read back by the columns of read_gro when they fit in five characters and the names have no blanks |
| TopologyParser.BoxOfRead | src/parser/topologyParserGMX.cpp:212-216 | the box line gives its first three numbers as the box lengths; a line without words gives a zero box |
| TopologyParser.AtomTotalRead | src/parser/topologyParserGMX.cpp:171-173 | the atom count is the first number of the second line, 0 when that line has no number |
| TopologyParser.IndexText | src/parser/topologyParserGMX.cpp:300-320 | an index file is the header line, then one line whose words are the numbers, in order |
| TopologyParser.WriteIndex | src/parser/topologyParserGMX.cpp:300-320 | the reactant file reads back as the old atom id of every atom record and the product file as the new one, one per record, in order |
| ReactionParser.BlankRun | src/parser/reactionParser.cpp:51 | find_first_not_of(' '): the number of leading ' ' characters, followed by another character or the end |
| ReactionParser.ClassifyAsWritten | src/parser/reactionParser.cpp:41-64 | the skip tests as written; a line is treated as a directive only if it holds a '[' |
| ReactionParser.Classify | src/parser/reactionParser.cpp:41-64 | the skip tests with the comment test on the first non-whitespace character; a directive line holds a '[' (corrected; see Findings) |
| ReactionParser.DirectiveName | src/parser/reactionParser.cpp:56-64 | a directive line fails if and only if it has no ']' |
| ReactionParser.DirectiveBetweenBrackets | src/parser/reactionParser.cpp:59-63 | the directive of "…[name]…" is the trimmed text between the first '[' and the first ']' |
| ReactionParser.ClosingBeforeOpening | src/parser/reactionParser.cpp:59-63 | when the first ']' comes before the first '[', the size_t length wraps and the directive is the trimmed rest of the line after '[' |
| ReactionParser.FirstIndexAt | src/parser/reactionParser.cpp:59-60 | find(c) gives the position of the first occurrence |
| ReactionParser.StripComment | src/parser/reactionParser.cpp:67-72 | erasing from the first '#' leaves a prefix of the line without '#' |
| ReactionParser.PutAtom | src/reaction/reactionBase.cpp:55-75 | getAdd(molid), setName, addAtom: the atom goes to the first molecule with the id, which takes the row's name, or to a new molecule with that id; no other molecule changes |
| ReactionParser.ReactantRow | src/parser/reactionParser.cpp:80-90 | a [reactants] row changes only the reactants |
| ReactionParser.ProductRow | src/parser/reactionParser.cpp:91-103 | a [products] row changes only the products and appends exactly one transition |
| ReactionParser.PairCount | src/parser/reactionParser.cpp:113-146 | ZONE reads one index pair, DIST/dist/Dist two, ANG/ang/Ang three, DIH/dih/Dih four, anything else none |
| ReactionParser.ReadPairs | src/parser/reactionParser.cpp:116-145 | the loop reads exactly as many pairs as the type asks for |
| ReactionParser.DecrementAll | src/parser/reactionParser.cpp:150-154 | every index of every pair is decremented as a size_t, in order |
| ReactionParser.CriterionRow | src/parser/reactionParser.cpp:104-157 | a [criteria] row is accepted if and only if its type names 1 to 4 pairs (any other is fatal in addCriterion), and then changes only the criteria |
| ReactionParser.TranslationRow | src/parser/reactionParser.cpp:158-179 | a [translations] row changes only the translations and appends exactly one |
| ReactionParser.DataRow | src/parser/reactionParser.cpp:65-202 | a data row keeps the directive, can fail only under [criteria], and changes the rate list only under [rate], where it appends that row's pair |
| ReactionParser.Step | src/parser/reactionParser.cpp:41-202 | blank and comment lines change nothing; a '[' line sets the directive, failing if and only if there is no ']'; any other line is a data row (corrected; see Findings) |
| ReactionParser.Finish | src/parser/reactionParser.cpp:206-207 | the stored rate table is sorted by distance, a permutation of the rows read, and stable: rows with equal distance keep their file order |
| ReactionParser.ReadReaction | src/parser/reactionParser.cpp:20-210 | a file that cannot be opened is fatal; a reaction read has its rate table sorted by distance (corrected; see Findings) |
| ReactionParser.Read | src/parser/reactionParser.cpp:20-210 | the line loop with its directive state computes ReadReaction (corrected; see Findings) |
| ReactionParser.ParseStopsAtError | src/parser/reactionParser.cpp:61 | once a line raises the critical error (`SIGNAL` becomes 6, so the run is skipped), the lines after it do not change the outcome the model gives |
| ReactionParser.DirectiveAfterSignal | src/parser/reactionParser.cpp:59-63 | on a '[' line without ']', after the handler returns from the critical error, substr runs with pos2 == npos: the directive is the trimmed rest of the line after the first '[' |
| ReactionParser.ReadIntText | src/parser/reactionParser.cpp:85-118 | a written int is read back by operator>> as that int, and as a size_t modulo 2^64 |
| ReactionParser.AtomFieldsRead | src/parser/reactionParser.cpp:83-85 | "molNr molName atomName atomNr" is read as exactly those four fields |
| ReactionParser.ReactantRowRead | src/parser/reactionParser.cpp:80-90 | a well-formed [reactants] row adds one atom with its number and name to the reactant with its molecule number, creating it if needed |
| ReactionParser.ProductRowRead | src/parser/reactionParser.cpp:91-103 | a well-formed [products] row adds the atom to its product and appends the transition whose four indices are the 1-based numbers minus 1, taken as size_t (a 0 wraps to 2^64 - 1) |
| ReactionParser.ReadPairsRead | src/parser/reactionParser.cpp:116-145 | index pairs written as words are read back in order |
| ReactionParser.LessOne | src/parser/reactionParser.cpp:150-154 | the 1-based pairs turned into indices, one per pair |
| ReactionParser.CriterionRowRead | src/parser/reactionParser.cpp:104-157 | a well-formed [criteria] row appends one criterion with the 1-based pairs minus 1, in order, and the two thresholds |
| ReactionParser.TranslationRowRead | src/parser/reactionParser.cpp:158-179 | a well-formed [translations] row appends the two pairs minus 1 and the value |
| ReactionParser.NameRowRead | src/parser/reactionParser.cpp:67-79 | under [name] the reaction name is the trimmed text before the first '#' |
| ReactionParser.BlankRunWithinSpaceRun | src/parser/reactionParser.cpp:46-51 | the ' ' run never exceeds the whitespace run, and the two agree when the ' ' run ends on a non-whitespace character |
| ReactionParser.AsWrittenDiffersOnlyOnIndentedComments | src/parser/reactionParser.cpp:51 | the classifications as written and corrected differ only on a comment indented with whitespace other than ' ' |
| ReactionParser.TabIndentedCommentAsWritten | src/parser/reactionParser.cpp:51-90 | "\t# c" under [reactants], read as written, adds a reactant 0 with one unnamed atom 0; the corrected step skips it |
| ReactionParser.TabCommentSpaces | src/parser/reactionParser.cpp:46-51 | "\t# c" has one whitespace character in front, no leading ' ' and no '[' |
| ReactionParser.TabCommentWords | src/parser/reactionParser.cpp:85 | the words of "\t# c" are "#" and "c" |

## Left out

- Process execution and file plumbing are not modelled: the MD engine (`src/engine/`), opening, seeking and closing files. Each file's content is given as a string, or as "cannot be opened".
- The statistics file, the `rsmdLOG`/`rsmdDEBUG`/`rsmdWARNING` output, the help text and `Simulator::finish`/`writeRestartFile` are output only and are not modelled.
- Floating-point rounding is not modelled: C++ `float`/`double` values are exact reals. Converting text to a REAL and a REAL to text are oracle functions (`RealReader`, `RealWriter`), so read-back is proved for integers and names but not for coordinates.
- Geometry is not modelled (distances, angles, dihedrals, `sqrt`, `exp`). Criterion values come from a `measure` parameter. The Boltzmann factor is a parameter that is only known to be positive.
- The per-slot candidate predicate `valid(dims, slot)` is a `SlotCheck` parameter that returns its verdict and the values it stores as its criteria's latest values. Its definition is not part of the visible source (`reactionCandidate.hpp` declares a one-argument `valid`), so which criteria it measures at which slot is left to the parameter.
- `Universe::searchReactionCandidates` is not part of this model. It is not defined in the visible source, and the Metropolis step is given the cell-search candidates instead.
- `ReactionCandidate::applyTranslations`, `Universe::checkMovement`, `Universe::readRelaxed`, `Topology::repairMoleculePBC` and `Universe::setup` are not modelled. They are floating-point geometry, diagnostics or parser plumbing.
- The rule that derives the cell counts from the box (`setCellNumbers`) is not modelled. The counts are an input of each cycle and need only be positive.
- Random draws are inputs, not generated: `uniform` draws in [0, 1) for acceptance and a `choice` function for `random_weighted_choice`. The standard distributions in `random.cpp` are not modelled.
- Signal delivery is not modelled as concurrency. Each cycle receives the signal arriving before it and the one arriving during its reactive step; the atomics and the handler's static call count are plain fields. Signals the engine raises when its child process is signalled are not modelled, since the engine is not.
- Universes.Universe.Update: the old topology is given the cycle's molecules directly, not by reading the `.top`/`.gro` files; `TopologyParser` models that reading separately.
- `operator>>` on a partly numeric word (such as `12abc`) and reading an `int` too large for its type are not modelled. A word is read as a number only when it is entirely numeric; any other word fails the stream and stores 0, as C++11 does.
- The setters in `reactionBase.hpp` (`setName`, `setRate` and the energies) are record updates and have no rows of their own.
- The consistency warnings printed while reading (for example, `getCurrentReactionRateValue` on an empty rate table) have no model beyond their `Err` result.
- Where `src/container/universe.cpp:371-372` lacks a semicolon and tests with `|`, the model reads the code as evidently intended: a statement ending there and the logical or.
- ReactionParser.DirectiveName: stops at the `Err` of the missing ']'. The code as written goes on after the handler returns (the directive is then the rest of the line, which `ReactionParser.DirectiveAfterSignal` states), and the handler's call count for setup errors is not kept.
- ReactionParser.Step: stops at a fatal line, as DirectiveName does. The rest-of-line directive and the handler's call count are not modelled here.
- ReactionParser.ParseStopsAtError: states the outcome of the model, which stops at the first critical error. The code as written carries on reading with the directive taken from the rest of the line, but `SIGNAL` is 6 and the run is skipped either way.
- ReactionParser.ReadReaction: a file that cannot be opened is `Err`. The code as written goes on with the empty reaction template (`src/parser/reactionParser.cpp:28`), which nothing uses, since the run is skipped. The handler's call count is not kept.
- ReactionParser.Read: stops at the first critical error, as ReadReaction does. The rest of the file, read after the handler returns, is not modelled.
- Reactions.AddCriterion: a wrong number of atoms is `Err`. The code after the critical error at `src/reaction/reactionBase.cpp:110` is not modelled, nor is the handler's call count.
- Reactions.GetReactant: a missing id is `Err`. After the handler returns, the code dereferences the end iterator (`src/reaction/reactionBase.cpp:43`), which is undefined behaviour and is not modelled.
- Reactions.GetProduct: a missing id is `Err`. After the handler returns, the code dereferences the end iterator (`src/reaction/reactionBase.cpp:51`), which is undefined behaviour and is not modelled.
- Topologies.Topology.GetMolecule: a missing id is `Err`. After the handler returns, the code dereferences the end iterator (`src/container/topology.cpp:35`), which is undefined behaviour and is not modelled.
- TopologyParser.TopologyParserGMX.ReadTop: a file that cannot be opened is `Err` and changes nothing. The code as written falls through with nothing read (`src/parser/topologyParserGMX.cpp:90`). The handler's call count is not kept.
- TopologyParser.TopologyParserGMX.ReadGro: a missing file is `Err`, while the code as written falls through with nothing read (`src/parser/topologyParserGMX.cpp:161`); the handler's call count is not kept. A bad record (too short for its columns, or a column with no number) makes `substr`, `std::stoi` or `std::stof` throw (`src/parser/topologyParserGMX.cpp:188-202`). Nothing catches that exception, so the run ends, which the `Err` of `GroLine` and `GroRecords` models exactly.
- Simulators.Simulator.constructor: does not model the `rsmdCRITICAL` path taken when the statistics file cannot be opened, since the file is not modelled.

## Findings

| source | as written | input that shows it | evidently intended | confidence | as-written member | corrected member |
|---|---|---|---|---|---|---|
| src/container/topology.cpp:110 | the y-axis neighbours wrap with `right`/`left`, which use the x-axis cell count | 3×1×1 cells: the stencil of cell (0,0,0) has entry 3, and only cells 0-2 exist | wrap each axis with its own count | not executed | CellGrid.StencilAsWrittenOutOfRange | CellGrid.StencilInRange |
| src/container/universe.cpp:369 | the third-slot loop `for(k = 0; k < size; j++)` advances `j`, not `k` | any 3-reactant template with at least one option for the third slot: `k` stays 0 and the loop never exits | advance `k` | not executed | Universes.ThirdSlotLoopNeverExits | Universes.ThirdSlotLoopExits |
| src/control/simulatorRate.cpp:43-44 | the attempted and accepted buckets are fixed at 8 and indexed by template position | nine templates, with a candidate named after the ninth: the increment writes past the vector | one bucket per template | not executed | Simulators.NinthTemplateOverflows | Simulators.BumpedSum |
| src/parser/reactionParser.cpp:51 | the comment test uses `find_first_not_of(' ')`, so a tab before `#` is not skipped | `"\t# c"` under `[reactants]` is read as an atom row and adds a default atom | skip any whitespace before `#`, as the blank-line test does | not executed | ReactionParser.TabIndentedCommentAsWritten | ReactionParser.Classify |
| src/parser/topologyParserGMX.cpp:248 | the molecule name is written with `setw(5)` and no separator before the count | name `ABCDE` with count 12 is written as `ABCDE12`, which reads back as name `ABCDE12` with count 0 | always separate the name from the count | not executed | TopologyParser.LongNameRunsIntoCount | TopologyParser.MoleculeLineRead |
