# Pharmer search core in Dafny

This project models three parts of the Pharmer pharmacophore search engine and proves properties about them.

- **The triplet correspondence enumerator**, `Corresponder` (module `Corresponder`). For one molecule conformation, the database search supplies every molecule point triple matching each query triplet. The enumerator picks one such match per triplet position, counting positions down. It keeps a choice only when query points map one-to-one onto molecule points. It extends the correspondence and three coordinate/weight stacks on the way down and undoes them on the way back. At a complete choice it pushes a result when the geometric acceptance test passes. It abandons the conformation once max(`orientationsPerConf`, 1) results have been pushed: the count is tested only after a push, so a limit of 0 still lets one result through. Its driver loop processes the queued matches one by one and counts those processed and those that produced a result.
- **The spatial-constraint container**, `Excluder` (module `Excluder`). It holds exclusion and inclusion spheres, each stored by its centre and its squared radius, with an inclusive containment test. It also holds two occupancy grids. It supports adding spheres, clearing the spheres and asking whether any constraint is defined.
- **The decision rules of the `pharmer` command-line tool** (modules `Paths` and `PharmerMain`):
  - file-name extensions as Boost's `filesystem::extension` computes them;
  - the writer that `pharma` selects from an output file's extension, and the query parser it selects from an input file's extension;
  - the rule that output files, if given, must be as many as the inputs;
  - what `dbsearch` writes for each output extension;
  - how `dbcreate` splits the input files among the databases it creates, and the molecule ids it assigns (`uniqueid * nd + d`);
  - how `dbcreateserverdir` checks the ligand ids and spreads the ligands over the prefix directories (`i % nd`);
  - whether `server` takes its databases from explicit directories or from a prefixes file.

The enumerator, the container and the id/slice loops are imperative, as in the C++:
- a class with fields updated by methods with `modifies` clauses;
- a recursive method;
- loops with invariants.

The selection rules are functions, with lemmas about them. Each command loop is a method proved equal to its plan function. The model follows the C++ code. `web/src/query.js` only builds the page; its event handlers are empty, so it is not modelled.

Facts the C++ obtains from code outside this model become parameters:
- the enumerator's geometric acceptance: RMSD, the per-point radius check and the `maxRMSD` bound;
- whether OpenBabel knows a molecule file's format;
- whether a query format is valid;
- whether a path exists;
- how many molecules a reader yields for a file, a stride and an offset.

## Model

| member | source | states |
|---|---|---|
| `Corresponder.Corresponder.constructor` | Corresponder.h:220-230 | A new enumerator has an all-unmatched correspondence, empty stacks, zero counters and no results. |
| `Corresponder.Corresponder.CheckCandidate` | Corresponder.h:150-172 | A triple match passes exactly when each of its query points is either unmatched with an unused molecule point, or already matched to that same molecule point. The points it records as new are exactly those unmatched query points and their molecule points. |
| `Corresponder.CheckIsComplete` | Corresponder.h:156-171 | The check rejects nothing that could be completed: if some one-to-one extension of the current correspondence maps the triplet onto the match, the match passes. |
| `Corresponder.Corresponder.Assign` | Corresponder.h:176-194 | The new points are set in the correspondence, and three coordinates, three coordinates and one weight are pushed per new point, in order. It returns the set of new molecule points. |
| `Corresponder.AssignStep` | Corresponder.h:180-192 | Setting an unmatched query point to an unused molecule point keeps the map one-to-one, and adds exactly that molecule point to the used set. |
| `Corresponder.AssignPrefix` | Corresponder.h:178-194 | After any prefix of a checked match's points is assigned, the correspondence is still one-to-one. Its used set is the old one plus the new molecule points, one more per new point. |
| `Corresponder.AssignCandidate` | Corresponder.h:176-195 | After a checked match is assigned in full, the correspondence is one-to-one and keeps every old assignment. It maps the triplet onto the match, and the mask passed down (old mask, or-ed with the new points) is exactly its used set. |
| `Corresponder.AssignAgrees` | Corresponder.h:176-194 | After the assignment, every earlier assignment is kept and each of the three triplet points maps to its molecule point. |
| `Corresponder.Corresponder.Undo` | Corresponder.h:200-211 | Every new point is reset to -1, and the three stacks shrink by exactly what was pushed. |
| `Corresponder.UndoRestores` | Corresponder.h:200-211 | Undoing the assignment of a checked match restores the correspondence exactly. |
| `Corresponder.Corresponder.Generate` | Corresponder.h:67-217 | The results it pushes are exactly the first (cap minus current count) leaves of the entry state, in depth-first order, and the count rises by their number. The leaves of a state are the accepted complete correspondences below it: for each match of the position in turn, those below it if it passes the check. It returns false exactly when the leaves are at least as many as the room left. A true return leaves the correspondence and all three stacks as on entry. |
| `Corresponder.Corresponder.Emit` | Corresponder.h:69-135 | At a complete choice, the current correspondence and stacks are pushed exactly when they pass the acceptance test, and the count rises by one. It returns false exactly when that push brings the count to the cap. |
| `Corresponder.Corresponder.TryMatch` | Corresponder.h:142-214 | For the i-th match of a position, it pushes exactly the first leaves below that match that fit the room left, and returns false exactly when they fill it. A match that fails the check pushes nothing. A true return leaves the state as on entry. |
| `Corresponder.Corresponder.ScanStep` | Corresponder.h:142-216 | In the loop over a position's matches, the pushes for the i-th match either stop the whole level with a prefix of its leaves, or add all of that match's leaves to those done. |
| `Corresponder.Corresponder.DescendFacts` | Corresponder.h:150-211 | For a checked match, the recorded points are determined by the correspondence. The child state is one-to-one with three coordinates per weight, its used set is the old one plus the new molecule points, and undoing the new points and popping their data gives the state back. |
| `Corresponder.Corresponder.LeavesSound` | Corresponder.h:67-217 | Every leaf reached from a well-formed state is a one-to-one correspondence of the query's size that keeps every assignment of that state. It realises every position up to pos and passed the acceptance test. |
| `Corresponder.Corresponder.FirstLeavesComplete` | Corresponder.h:245-249 | The first cap leaves of a match, from the all-unmatched state, are complete, accepted, one-to-one correspondences for that match. |
| `Corresponder.CompatibleCandidate` | Corresponder.h:150-172 | A match passes the check exactly when the new points it determines (the unmatched query points of the triplet and their molecule points) form a valid candidate. |
| `Corresponder.TakeAfter` | Corresponder.h:142-198 | When the leaves done so far are fewer than the room, stopping inside the next match's leaves keeps the done leaves whole and takes the rest from that match. |
| `Corresponder.Corresponder.Descend` | Corresponder.h:174-212 | Descending into a checked match pushes exactly the first leaves, as many as fit the room left, of the child state: the match's new points set and their coordinates and weight pushed. It returns false exactly when they fill the room. Otherwise the state is restored on return. |
| `Corresponder.Corresponder.Cap` | Corresponder.h:110-114 | The number of pushes after which a conformation is abandoned: at least one, and at least `orientationsPerConf`. |
| `Corresponder.Corresponder.ProcessMatch` | Corresponder.h:245-256 | One popped match: the results pushed are exactly the first cap leaves of the match from the all-unmatched state, so each is a complete, accepted, one-to-one correspondence for it. The count starts from zero and ends at their number. `processedCnt` rises by one and `matchedCnt` by one exactly when a result was pushed. The stacks are empty afterwards, also after an early stop. |
| `Corresponder.Corresponder.Run` | Corresponder.h:235-258 | Over a queue of matches, the results are the per-match groups in queue order. Group k is exactly the first cap leaves of match k, each complete for its match. `processedCnt` rises by the queue length and `matchedCnt` by the number of non-empty groups, so `matchedCnt <= processedCnt`. The total number of results is bounded by queue length times cap. |
| `Corresponder.FlattenBound` | Corresponder.h:110-114 | At most cap results per match gives at most (number of matches) times cap results in all. |
| `Corresponder.NonEmptyBound` | Corresponder.h:255-256 | The number of matched matches is at most the number processed and at most the number of results, and it is zero exactly when no result was pushed. |
| `Excluder.DefaultSphere` | src/Excluder.h:44 | The default sphere is centred at the origin with squared radius 0, and contains the origin. |
| `Excluder.MakeSphere` | src/Excluder.h:45 | A sphere built from radius r stores r*r, which is non-negative, and contains its centre. |
| `Excluder.AxisContains` | src/Excluder.h:32-42 | Along each axis, a point at offset d from the centre is contained exactly when d*d <= r*r. |
| `Excluder.Contains` | src/Excluder.h:32-42 | A point is contained exactly when the sum of its squared coordinate differences from the centre is at most rSq, boundary included. So a sphere with negative rSq contains nothing, and the centre is contained exactly when rSq >= 0. |
| `Excluder.BoundaryContained` | src/Excluder.h:32-45 | The test is inclusive: every point at squared distance exactly r*r from the centre is contained, including (x+r, y, z) and (x-r, y, z). |
| `Excluder.RadiusSign` | src/Excluder.h:45 | Radius -r gives the same sphere as radius r. |
| `Excluder.Monotone` | src/Excluder.h:32-45 | A larger non-negative radius about the same centre contains every point of the smaller sphere. |
| `Excluder.Excluder.IsDefined` | src/Excluder.h:74 | A constraint is defined exactly when a sphere list is non-empty or a grid has a set cell. |
| `Excluder.Excluder.constructor` | src/Excluder.h:48-61 | A new container has no spheres and empty grids, so no constraint is defined. |
| `Excluder.Excluder.Clear` | src/Excluder.h:74-76 | Both sphere lists become empty; the grids are untouched. Afterwards a constraint is defined exactly when a grid has a set cell. |
| `Excluder.Excluder.AddExclusionSphere` | src/Excluder.h:78-81 | Exactly one sphere, of squared radius r*r, is appended to the exclusion list. Nothing else changes, and a constraint is then defined. |
| `Excluder.Excluder.AddInclusionSphere` | src/Excluder.h:83-86 | Exactly one sphere is appended to the inclusion list. Nothing else changes, and a constraint is then defined. |
| `Paths.Extension` | src/main.cpp:185 | The extension is a suffix of the path's last component. It is empty, or a '.' followed by no other '.' or '/'. It is empty when the last component has no dot. |
| `Paths.ExtensionOfAppend` | src/main.cpp:185 | Appending a well-formed extension to any path makes it that path's extension. |
| `PharmerMain.CollectOk` | src/main.cpp:164-172 | A per-input loop that stops at the first error succeeds exactly when every input succeeds, and then yields their values in order. |
| `PharmerMain.CollectErr` | src/main.cpp:164-172 | A failing per-input loop reports the error of the first failing input. |
| `PharmerMain.OutputFor` | src/main.cpp:177-179 | There is no output file exactly when none were given; otherwise input i's output is output i. |
| `PharmerMain.WriterRoundTrip` | src/main.cpp:185-191 | A file named with the `.txt`, `.json` or `.sdf` extension selects the text, JSON or SDF writer, and a file without an extension selects text. |
| `PharmerMain.WriterAccepts` | src/main.cpp:185-196 | A writer is selected exactly for `.txt`, `""`, `.json` and `.sdf`. Every other extension fails with "Unsupported output format". |
| `PharmerMain.ParserDispatch` | src/main.cpp:200-233 | Each query parser is selected exactly by its own extensions: `.json`/`.query`, `.ph4`, `.pml`, `.txt`. Molecule recognition is selected exactly for the other extensions. |
| `PharmerMain.PharmaPlanOk` | src/main.cpp:158-233 | A successful pharma run has a valid output count and one job per input. Each job uses the parser of its input's extension, and the writer of its output's extension, or none when no outputs were given. |
| `PharmerMain.PharmaPlanErr` | src/main.cpp:164-240 | With a valid output count, pharma fails exactly when some input's decisions fail, and then with the message of the first failing input. |
| `PharmerMain.HandlePharma` | src/main.cpp:155-240 | The loop over the inputs returns exactly the plan: the count error first, then the first input error, else all jobs. |
| `PharmerMain.SearchOutputRoundTrip` | src/main.cpp:792-821 | A result file named `.gz`, `.sdf` or `.txt` gets compressed molecules, molecules or text data, and one without an extension gets text data. |
| `PharmerMain.SearchOutputAccepts` | src/main.cpp:795-821 | dbsearch accepts exactly the output extensions `.sdf`, `.txt`, `""` and `.gz`. Text data is written exactly for `.txt` and `""`. |
| `PharmerMain.SearchPlanOk` | src/main.cpp:697-821 | A successful search has a database, at least one query, a valid output count, and one job per query. Each query has a query format and is a valid query, and each job's output kind is the one its output file's extension selects. |
| `PharmerMain.SearchPlanErr` | src/main.cpp:751-821 | Once the database, query-count and output-count checks pass, a search fails only with the error of the first bad query. A query is bad for its extension, then for its validity, then for its output's extension. |
| `PharmerMain.HandleSearch` | src/main.cpp:688-825 | The command's checks and loop return exactly the plan, in the order: databases, queries, output count, then for each query its extension, its validity (`isValid`) and its output extension. |
| `PharmerMain.ExistingMembers` | src/main.cpp:900-906 | A prefix line is kept exactly when its path exists. |
| `PharmerMain.FilterExisting` | src/main.cpp:897-906 | The loop over the prefixes file keeps exactly the existing paths, in order. |
| `PharmerMain.ServerSourceRule` | src/main.cpp:879-911 | Directories and a prefixes file together are an error. Prefixes are used only when no directory is given, and then exactly the existing ones. Without directories the server fails exactly when no prefix exists. |
| `PharmerMain.ServerSetup` | src/main.cpp:879-912 | The server's checks return exactly that choice. |
| `PharmerMain.CreatePlan` | src/main.cpp:294-299 | dbcreate fails exactly when no database directory is given; otherwise it plans one slice per database. |
| `PharmerMain.SliceReadsSpec` | src/main.cpp:345-362 | Database d reads file i exactly when files are not partitioned or i % nd == d. It reads the files in increasing order: with stride 1 and offset 0 under partitioning, and with stride nd and offset d otherwise. |
| `PharmerMain.FilePartitionExactlyOnce` | src/main.cpp:347-351 | Under file partitioning, every input file is read by exactly one database, number i % nd. |
| `PharmerMain.NoPartitionReadsAll` | src/main.cpp:356-362 | Without partitioning, database d reads every file, each with stride nd and offset d. |
| `PharmerMain.CreateSlice` | src/main.cpp:336-374 | Database d's creator reads exactly its slice of the files. It numbers the molecules it reads consecutively from uniqueid 1, giving id uniqueid*nd+d modulo 2^64. |
| `PharmerMain.NumberMolecules` | src/main.cpp:366-370 | The read loop over one file gives each molecule the next id and counts uniqueid on. |
| `PharmerMain.StripeUnique` | src/main.cpp:368 | uniqueid*nd+d determines both uniqueid and d when d < nd. |
| `PharmerMain.NoWrap` | src/main.cpp:342-368 | An id below 2^64 is stored unwrapped. |
| `PharmerMain.IdsUnique` | src/main.cpp:342-370 | While no id reaches 2^64, molecule ids are unique across all databases. Two molecules share an id only if they are the same molecule of the same database. |
| `PharmerMain.ReadLigands` | src/main.cpp:441-463 | The ligand-file loop returns all lines, or stops at the first line whose id is not positive. |
| `PharmerMain.LigandRule` | src/main.cpp:454-459 | The ligand file is accepted exactly when every id is positive, and then unchanged. Otherwise the error names the first line with a bad id. |
| `PharmerMain.ServerSliceSpec` | src/main.cpp:515-518 | Ligand i goes to directory d exactly when i % nd == d, and each directory gets its ligands in increasing order. |
| `PharmerMain.LigandInOneDirectory` | src/main.cpp:507-518 | Every ligand lands in exactly one directory, number i % nd. |
| `PharmerMain.FillDirectory` | src/main.cpp:515-531 | Directory d's creator adds the molecules of exactly the ligands of its slice whose conformer file has a format OpenBabel knows, in order. |
| `PharmerMain.LoadedSpec` | src/main.cpp:515-523 | Ligand i is loaded into directory d exactly when i % nd == d and its file's format is known, and the loaded ligands are in increasing order. |
| `PharmerMain.LoadedInSlice` | src/main.cpp:515-523 | The loaded ligands are exactly the ligands of the directory's slice whose format is known. |

## Left out

- RMSD, reorientation, the per-point radius check and the `maxRMSD` bound (Corresponder.h:71-116, RMSD.h) are floating-point linear algebra. The enumerator takes their verdict as the parameter `accepts`.
- Concurrency: the match queue and its thread index, the result queue and its producer count, the shared `stopEarly` flag, and the allocator. `Run` processes a sequence of matches, and results are appended to a sequence. The final statistics message is output and is not modelled.
- Corresponder.Corresponder.ProcessMatch: `CorrespondenceResult::reinitialize` (Corresponder.h:245) is not part of this model; it is assumed to reset the correspondence to all-unmatched and to take the location from the match.
- `unreduceFloat` is not modelled: match coordinates are stored already decoded.
- Query triplets and matches are assumed well formed: three distinct query points below the point count, and three distinct molecule points below 128. The C++ relies on the database to build them that way and does not check it.
- The occupancy grids are modelled only by their numbers of set cells. The container's JSON reading, exclusion test, grid construction, transform and mesh output are not part of this model.
- Coordinates are reals, not single-precision floats. Rounding in `contains` is not modelled.
- Excluder.DefaultSphere: does not state that the default sphere contains only the origin, because over the reals that needs a nonlinear argument the solver does not make.
- All I/O and process control of the command-line tool are not modelled:
  - opening input, output, ligand, prefixes and database-info files, and the failures to open them;
  - OpenBabel reading and conversion;
  - directory and symlink creation, and `fork`/`wait`;
  - database loading, JSON parsing and `glob`;
  - file-descriptor reservation.
  
  Which paths exist, which formats OpenBabel knows, which query formats are valid, and how many molecules a reader yields are parameters.
- The pharma command's receptor-based and molecule-recognition point extraction, and the writers' output, are not modelled. Only the choice of parser and writer is.
- PharmerMain.CreateSlice: the ids are stated through `MolId`, modulo 2^64. Uniqueness (`IdsUnique`) holds only while no id reaches 2^64.
- A ligand line naming a missing file only draws a warning in the C++, so the model does not check it. The `subdir` field of the database info is not modelled. `dbcreateserverdir` with no existing prefixes creates no directories and reports no error, and the model follows it.
- The `dbcreate` checks on input files (existence, format) and directory creation depend on the file system and are left out. So are the `dbcreateserverdir` checks on its prefixes, database-info and ligand files.
- `server`: only the choice of database source is modelled, not loading the databases or serving requests.
- Byte counts read and the per-database progress output of `dbcreate` are not modelled.
