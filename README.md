# Scalpel SSA/ANF core in Dafny

This project models the core of Scalpel's static-single-assignment (SSA)
pipeline for Python and of the CodeComparator viewer that displays its output:

- **SSA renaming** (`src/scalpel/SSA/const.py`, module `SsaConst`): phi
  placement at dominance frontiers (`lookup_phi_placements`), the renaming
  pass of `compute_SSA2` (one version counter per name shared by all blocks,
  phi versions reserved before a block's statements, loads resolved before
  stores), the predecessor search for the versions a phi merges
  (`recursive_find_var_usages_in_predecessors`) and `get_global_unique_name`.
  The dominance frontiers and the names each statement stores and loads are
  inputs.
- **SSA IR** (`src/scalpel/SSA/ssa_syntax.py`, module `SsaSyntax`): the node
  classes as a datatype, their `print` methods, `print_args`, `print_terms`,
  `get_indentation`, the lookups `get_block_by_id`, `get_phi_vars_in_block`
  and `get_phi_vars_for_jump`, phi construction `PS_PHI`, label memoisation
  `PS_B_REF` (a class over the memo table and counter), block assembly
  `PS_B`/`PS_BS` and the in-place block sort of `SSA_P` (an insertion sort on
  an array).
- **SSA to ANF lowering** (`src/scalpel/SSA/anf_syntax.py`, module
  `AnfSyntax`): the ANF node datatype and printer, `SA_V`, `SA_ES` (as a
  function threading the global buffer counter), `ANF_E_LETREC.add_entry` (a
  class), and `SA_BS`/`SA_PS` as methods of a class holding the program and
  the buffer counter, proved against specification functions.
- **Text helpers** (`src/scalpel/functions.py`, module `TextFunctions`):
  `replaceSpaces` and `trim_double_spaces` as loops proved against
  line-by-line specification functions, `get_global_unique_name`, and the two
  dictionary-backed counters as methods of a class holding the dictionary.
- **CodeComparator parser** (`CodeComparator/src/app/app.component.ts`,
  module `CodeComparator`): the `Position` constructor, `parseFile` as a
  method of a class holding the component's fields, with the JavaScript
  `split`, `trim` and unary `+` it relies on, and the token classifiers.

Exceptions the sources raise (`IndexError`, `KeyError`, `AttributeError`,
JavaScript's `TypeError`) are modelled as `Err` results carrying the
exception's name. Module-level state of the Python sources (the renaming
tables, `block_refs`/`block_counter`, `ssa_ast_global`,
`buffer_variable_counter`) is passed explicitly or held in a class.

## Model

| member | source | states |
|---|---|---|
| SsaConst.CandidateInjective | src/scalpel/SSA/const.py:542-546 | the names tried for a variable (`v`, `v_2`, `v_3`, ...) are pairwise distinct, so the search can only stop at a free name |
| SsaConst.GetGlobalUniqueName | src/scalpel/SSA/const.py:541-547 | the result is not among the used names; it is the name itself when that is free, otherwise the first candidate `v_k` (k >= 2) all of whose predecessors are taken |
| SsaConst.StmtDefsMember | src/scalpel/SSA/const.py:306-310 | a name is among a block's gathered stored names exactly when some statement of the block stores it |
| SsaConst.CollectStored | src/scalpel/SSA/const.py:306-310 | the affected names are the stored names of the statements, statement by statement, in order |
| SsaConst.AddMissing | src/scalpel/SSA/const.py:313-316 | a frontier block's phi list gains exactly the affected names it lacked, keeps its old entries in order and stays duplicate-free; other blocks' lists are unchanged |
| SsaConst.PlaceBlockDefs | src/scalpel/SSA/const.py:302-316 | after one block, every name it stores is in the phi list of each block of its dominance frontier; lists only grow at their ends and stay duplicate-free |
| SsaConst.LookupPhiPlacements | src/scalpel/SSA/const.py:301-316 | for every block B, every name B stores and every D in DF[B], the name is in D's phi list; existing entries and their order are kept; no list gains a duplicate; every name in D's list was there before or is stored by a block whose frontier holds D |
| SsaConst.HighestNrAsWritten | src/scalpel/SSA/const.py:327-331 | the scan as written, statement stores first and phi stores after them, the last match kept: the result is the last phi version of the name when the block has a phi of it, else its last statement-store version, else -1 |
| SsaConst.HighestNr | src/scalpel/SSA/const.py:327-331 | the corrected scan, phi stores first and statement stores after them, the last match kept: the result is the last statement-store version of the name when a statement stores it, else its last phi version, else -1 |
| SsaConst.LiveOut | src/scalpel/SSA/const.py:325-331 | the version a source block hands on for a name: its statement stores and phi stores scanned in the given order, the last match kept, -1 when the block defines the name nowhere |
| SsaConst.PredecessorVersions | src/scalpel/SSA/const.py:319-337 | the specification of the search: edges already searched are skipped, a defining source contributes its one live-out version, a non-defining one is searched through its own incoming edges with the starting edges added to the searched ones; the results are concatenated in edge order |
| SsaConst.FindVarUsagesInPredecessors | src/scalpel/SSA/const.py:319-337 | the versions returned equal the recursive specification: edges already searched are skipped, a defining source contributes its one live-out version, a non-defining one is searched through with the visited edges extended; it terminates because the set of unsearched edges shrinks |
| SsaConst.PredecessorVersionsSound | src/scalpel/SSA/const.py:319-337 | every version the search returns is handed on by the block at the end of a search path: a chain of unsearched edges walked backwards from the starting edges, through source blocks that define nothing, to a source block that defines the name |
| SsaConst.PredecessorVersionsComplete | src/scalpel/SSA/const.py:319-337 | conversely, the version handed on by the block at the end of any search path is among the versions the search returns |
| SsaConst.PredecessorVersionsNone | src/scalpel/SSA/const.py:319-337 | when no search path reaches a block that defines the name, the search returns the empty list |
| SsaConst.ReachesThrough | src/scalpel/SSA/const.py:333-336 | a version reached from the edges into a block that defines nothing is reached from the edge into that block, with the starting edges counted as searched |
| SsaConst.AsWrittenSearchPrefersPhi | src/scalpel/SSA/const.py:328-331 | on a two-block loop, scanning statement stores before phi stores hands on the phi version `x_1` over the back edge where the block's last definition is `x_2` |
| SsaConst.LastStoreMatchIsLast | src/scalpel/SSA/const.py:328-331 | scanning statement stores, the version kept is that of the last statement storing the name, or the initial value when none does |
| SsaConst.LastPhiMatchIsLast | src/scalpel/SSA/const.py:328-331 | scanning phi stores, the version kept is that of the last phi of the name, or the initial value when none exists |
| SsaConst.LiveOutIsHighest | src/scalpel/SSA/const.py:327-334 | in a block whose versions rise, the phis-first scan yields one of the block's versions of the name (or -1) and no version in the block exceeds it |
| SsaConst.BumpTracks | src/scalpel/SSA/const.py:242-245 | one more definition sets the name's counter to 0 the first time and to the previous value plus one afterwards, so the counter is the number of earlier definitions |
| SsaConst.ResolveLoads | src/scalpel/SSA/const.py:259-264 | each loaded name records the current version of the name, and an empty set when the name has no earlier definition |
| SsaConst.RenameStores | src/scalpel/SSA/const.py:266-282 | each stored name gets as version the number of earlier definitions of that name, and the counter keeps tracking every definition |
| SsaConst.RenameStatement | src/scalpel/SSA/const.py:252-282 | one statement: loads are resolved against the versions before the statement, then its stores get the next versions |
| SsaConst.ReservePhis | src/scalpel/SSA/const.py:240-249 | each phi of a block, in order, reserves the next version of its name before any statement of the block is renamed |
| SsaConst.RenameStatements | src/scalpel/SSA/const.py:251-282 | statement i's stores and loads are numbered against all definitions before it (earlier blocks, the block's phis, statements 0..i-1) |
| SsaConst.RenameBlock | src/scalpel/SSA/const.py:232-282 | a block's phis and then its statements are numbered against the definitions of the blocks before it |
| SsaConst.PlacementFromNothing | src/scalpel/SSA/const.py:208-229 | phi placement started from empty lists yields lists that are complete for the dominance frontiers, duplicate-free, and hold only names stored by a block with that frontier |
| SsaConst.RenameBlocks | src/scalpel/SSA/const.py:232-282 | every block, in `all_blocks` order, is renamed against the definitions of all blocks before it, with one counter per name across blocks |
| SsaConst.ResolvePhis | src/scalpel/SSA/const.py:284-296 | every phi of every block gets as arguments the versions the predecessor search returns for its name |
| SsaConst.ComputeSsa2 | src/scalpel/SSA/const.py:175-298 | `compute_SSA2` on the statement analysis and the frontiers: phis placed completely, every block renamed in order, every phi resolved, each table keyed by exactly the blocks, and no (name, version) pair defined at two sites |
| SsaConst.SiteSpan | src/scalpel/SSA/const.py:240-282 | after the renaming, the version a phi or a statement store defines is one less than the number of definitions of its name up to that site in the renaming order |
| SsaConst.SitesApart | src/scalpel/SSA/const.py:232-282 | two different definition sites occupy disjoint stretches of the renaming order, the earlier site's before the later one's |
| SsaConst.DefinitionSitesUnique | src/scalpel/SSA/const.py:240-282 | over the tables of the whole renaming, two phis or statement stores, in the same block or in different blocks, that define the same version of the same name are the same site |
| SsaConst.DefinitionVersions | src/scalpel/SSA/const.py:240-282 | a name's first definition gets version 0, each later one a higher version and exactly the previous one plus one when no definition of the name lies between, so no two definitions share a (name, version) pair |
| SsaConst.LoadBeforeStore | src/scalpel/SSA/const.py:256-281 | in a statement that loads and stores a name (`b = b + 1`), the loaded version is the one before the stored version, and empty when the name was never defined |
| SsaConst.StoresAscending | src/scalpel/SSA/const.py:266-282 | within a block, a later statement's store of a name has a higher version than an earlier one's |
| SsaConst.PhisAscending | src/scalpel/SSA/const.py:241-249 | within a block, a later phi of a name has a higher version than an earlier one |
| SsaConst.PhisBelowStores | src/scalpel/SSA/const.py:240-281 | a phi version of a name in a block is lower than every statement-store version of that name in the block |
| SsaConst.BlockVersionsAscending | src/scalpel/SSA/const.py:240-282 | the versions a renamed block defines for a name rise from phis through statements |
| SsaConst.RenamedBlockHandsOnHighest | src/scalpel/SSA/const.py:319-337 | after renaming, the phis-first scan of any block hands on the block's highest version of the name, that is its last definition |
| SsaSyntax.Indent | src/scalpel/SSA/ssa_syntax.py:213-214 | `get_indentation(n)` is exactly 2n spaces |
| SsaSyntax.PrintValue | src/scalpel/SSA/ssa_syntax.py:75-113 | a variable prints its name, a constant its value, a label its text and a call its callee followed by its printed argument list |
| SsaSyntax.PrintTerm | src/scalpel/SSA/ssa_syntax.py:124-168 | an assignment prints `target ← value`, a phi `target ← φ(args)`, a jump `goto L<label>`, a return `ret` or `ret <call>;`, and an `if` its test, its then-term, a line break, the indentation and `else ` with its else-term |
| SsaSyntax.PrintBlock | src/scalpel/SSA/ssa_syntax.py:177-182 | the first block of a procedure prints its terms at its level; any other block prints `L<label>: `, a line break and its terms one level deeper |
| SsaSyntax.PrintProc | src/scalpel/SSA/ssa_syntax.py:191-193 | `proc <name>()`, a brace, the blocks printed at level 1 separated by blank lines, and a closing brace |
| SsaSyntax.PrintAst | src/scalpel/SSA/ssa_syntax.py:201-202 | the procedures joined by line breaks, followed by the top-level blocks at level 0 joined by blank lines |
| SsaSyntax.PrintArgs | src/scalpel/SSA/ssa_syntax.py:205-206 | the printed argument list is parenthesised and is `()` for no arguments |
| SsaSyntax.PrintArgsSplit | src/scalpel/SSA/ssa_syntax.py:205-206 | between the parentheses, splitting at `, ` gives back the printed arguments, in order |
| SsaSyntax.PrintTerms | src/scalpel/SSA/ssa_syntax.py:209-210 | the printed terms always end with `;` |
| SsaSyntax.PrintedTermsLines | src/scalpel/SSA/ssa_syntax.py:209-210 | `None` terms are skipped: there is one line per present term, each the indentation followed by a term's text |
| SsaSyntax.PrintTermsSplit | src/scalpel/SSA/ssa_syntax.py:209-210 | without the final `;`, splitting at `;\n` gives back the lines of the present terms |
| SsaSyntax.PrintBlockLabelLine | src/scalpel/SSA/ssa_syntax.py:177-182 | a block that is not first in its procedure prints `L<label>: ` on its own line at its indentation, then its terms one level deeper |
| SsaSyntax.FirstLabelledIsFirst | src/scalpel/SSA/ssa_syntax.py:217-225 | the lookup finds nothing exactly when no block has the label, and otherwise the first block that has it |
| SsaSyntax.GetBlockById | src/scalpel/SSA/ssa_syntax.py:217-225 | the result is the first block labelled `id`, searching the procedures' blocks in order and then the top-level blocks, and `None` when there is none |
| SsaSyntax.PhiTargetsMember | src/scalpel/SSA/ssa_syntax.py:228-233 | a value is among the block's phi variables exactly when some phi assignment of the block targets it |
| SsaSyntax.GetPhiVarsInBlock | src/scalpel/SSA/ssa_syntax.py:228-233 | the phi variables are the phi targets of the block's terms, in order |
| SsaSyntax.AssignedNamesMember | src/scalpel/SSA/ssa_syntax.py:240-242 | a name is gathered exactly when some plain assignment of the block prints its target as that name |
| SsaSyntax.PhiArgsMember | src/scalpel/SSA/ssa_syntax.py:244-246 | a value is among the gathered phi arguments exactly when it is an argument of some phi of the block |
| SsaSyntax.KeepPrintedExactly | src/scalpel/SSA/ssa_syntax.py:246-248 | the kept values are exactly those whose printed name is among the names, as a subsequence of the input |
| SsaSyntax.JumpArgsExactly | src/scalpel/SSA/ssa_syntax.py:236-250 | the jump arguments are a subsequence of the target's phi arguments, and exactly those whose printed name is the printed target of some assignment of the source block |
| SsaSyntax.GetPhiVarsForJump | src/scalpel/SSA/ssa_syntax.py:236-250 | the loop computes the jump arguments specified above |
| SsaSyntax.AssignedNamesOf | src/scalpel/SSA/ssa_syntax.py:240-242 | the first loop gathers the printed targets of the plain assignments, in order |
| SsaSyntax.UnversionedVersioned | src/scalpel/SSA/ssa_syntax.py:294 | a versioned name `name_<nr>` reads back as its name and version |
| SsaSyntax.VersionedInjective | src/scalpel/SSA/ssa_syntax.py:294 | two versioned names are equal only for the same name and version |
| SsaSyntax.PhiAssignments | src/scalpel/SSA/ssa_syntax.py:290-294 | one phi assignment per (stored, loaded) pair, as many as the shorter table has |
| SsaSyntax.PsPhi | src/scalpel/SSA/ssa_syntax.py:287-296 | succeeds exactly when every loaded entry holds the stored name (otherwise a `KeyError`), and then builds one phi per pair targeting `name_<nr>` with one argument `name_<v>` per loaded version |
| SsaSyntax.PhiAssignmentsDistinct | src/scalpel/SSA/ssa_syntax.py:290-294 | distinct stored (name, version) pairs give distinct phi targets, and a phi's arguments are distinct exactly when its loaded versions are |
| SsaSyntax.BlockRefs.constructor | src/scalpel/SSA/ssa_syntax.py:255-256 | the memo table starts empty and the counter at 1 |
| SsaSyntax.BlockRefs.Ref | src/scalpel/SSA/ssa_syntax.py:415-423 | the label of a block is the text of its id, the same on every call; the table records it and the counter rises only for a block not yet in the table |
| SsaSyntax.AssembledGotoIffOneExit | src/scalpel/SSA/ssa_syntax.py:333-336 | an assembled block holds a jump exactly when it has one exit, and then ends with the jump to that exit's label |
| SsaSyntax.PsB | src/scalpel/SSA/ssa_syntax.py:325-343 | succeeds exactly when the block's phi tables are present and then yields the block labelled by its id holding its phis, statements and exit jump; the memo table gains exactly the labels of the block and of its one exit, or only the block's own label with a `KeyError` |
| SsaSyntax.PsBs | src/scalpel/SSA/ssa_syntax.py:313-323 | one assembled block per input block, in order, only the first marked first-in-procedure, and the memo table gains exactly the labels of all blocks and their single exits; fails with `KeyError` exactly when some block lacks its phi tables, and then the first such block stops it, the memo table holding the labels of the blocks before it and its own |
| SsaSyntax.SortBlocks | src/scalpel/SSA/ssa_syntax.py:189 | the blocks end sorted by label text and are a permutation of the input |
| SsaSyntax.MakeProc | src/scalpel/SSA/ssa_syntax.py:185-189 | the procedure keeps its name and holds its blocks as a permutation sorted by label |
| AnfSyntax.AnfIndent | src/scalpel/SSA/anf_syntax.py:99-100 | the indentation is n copies of a bar followed by two spaces |
| AnfSyntax.Print | src/scalpel/SSA/anf_syntax.py:10-96 | the `print` method of each ANF node: constants and variables as their text, `λ` with its parameters and body, an application as its arguments and `.` callee, `let`, `letrec` with one `name = entry` line per entry, and `if` with its branches one level deeper |
| AnfSyntax.SaV | src/scalpel/SSA/anf_syntax.py:162-171 | `SA_V`: a variable becomes an ANF variable of the same name, a constant or a label a constant of its text, and a call an application of its lowered arguments to its lowered callee |
| AnfSyntax.SaVRoundTrip | src/scalpel/SSA/anf_syntax.py:162-171 | reading the lowered value back gives the value with labels turned into constants of their text: variables, constants and calls keep their names, values and arguments in order |
| AnfSyntax.SaVInjective | src/scalpel/SSA/anf_syntax.py:162-171 | two label-free values that lower alike are equal |
| AnfSyntax.SaVPrintsAtoms | src/scalpel/SSA/anf_syntax.py:162-168 | a lowered variable, constant or label prints as it printed in SSA |
| AnfSyntax.FindBlock | src/scalpel/SSA/ssa_syntax.py:217-225 | the first block whose label text equals the key; a key that is a label object equals no label text |
| AnfSyntax.FindBlockByText | src/scalpel/SSA/ssa_syntax.py:217-225 | looking a block up by label text is the first-labelled lookup |
| AnfSyntax.FindBlockByObject | src/scalpel/SSA/ssa_syntax.py:220 | handed a label object instead of its text, the lookup finds no block |
| AnfSyntax.SaEs | src/scalpel/SSA/anf_syntax.py:137-160 | `SA_ES` in both its as-written and its corrected form: an empty list is an `IndexError`, a missing term the empty constant, an assignment a `let` around the rest, a phi nothing, a jump an application of the jump arguments to the label (or `AttributeError` when the lookup fails), a return its lowered call, an `if` an ANF `if` of its branches, a standalone call a `let` binding a buffer; the two forms differ in when the counter rises and in the lookup key |
| AnfSyntax.PhisVanish | src/scalpel/SSA/anf_syntax.py:149-150 | phi assignments in front of a term list lower to nothing: the result is that of the rest |
| AnfSyntax.AssignmentsBecomeLets | src/scalpel/SSA/anf_syntax.py:144-145 | a run of assignments and phis becomes a `let` chain binding the assignment targets in order around the lowering of the rest, with the rest's counter |
| AnfSyntax.GotoLowersToJump | src/scalpel/SSA/anf_syntax.py:146-148 | corrected, a jump becomes an application of the jump arguments to the label constant when the block exists, and the `AttributeError` when it does not |
| AnfSyntax.AsWrittenGotoFails | src/scalpel/SSA/anf_syntax.py:146-148 | as written, every jump raises `AttributeError`, whatever the program |
| AnfSyntax.BufferNameDecodes | src/scalpel/SSA/anf_syntax.py:156 | a buffer name `zBuf<n>` decodes back to n |
| AnfSyntax.VersionedNotBuffer | src/scalpel/SSA/anf_syntax.py:156 | no versioned SSA name is a buffer name |
| AnfSyntax.BuffersNumbered | src/scalpel/SSA/anf_syntax.py:155-158 | corrected, the standalone calls of a term list are bound to buffers numbered from the counter on, one each, in order, and the counter rises by exactly their number |
| AnfSyntax.AsWrittenBuffersCollide | src/scalpel/SSA/anf_syntax.py:155-158 | as written, two standalone calls in a row are both bound to `zBuf0` |
| AnfSyntax.CorrectedBuffersDiffer | src/scalpel/SSA/anf_syntax.py:155-158 | corrected, the same two calls are bound to `zBuf0` and `zBuf1` |
| AnfSyntax.LetRecBuilder.constructor | src/scalpel/SSA/anf_syntax.py:75-78 | a `letrec` starts with one entry and its body |
| AnfSyntax.LetRecBuilder.AddEntry | src/scalpel/SSA/anf_syntax.py:80-82 | one name and one term are appended side by side, so the two lists keep the same length |
| AnfSyntax.LoweredBlocks | src/scalpel/SSA/anf_syntax.py:124-134 | the λ-entries of the blocks, each over its phi variables around its corrected `SA_ES` lowering with the counter the blocks before it left, and the counter after the last; the first failure is the result |
| AnfSyntax.LoweredBlocksStep | src/scalpel/SSA/anf_syntax.py:131-133 | lowering one block more appends that block's λ-entry and carries the counter on |
| AnfSyntax.LoweredBlocksErrPersists | src/scalpel/SSA/anf_syntax.py:131-133 | a block that fails to lower makes the whole block list fail with that block's error |
| AnfSyntax.LoweredBlocksShape | src/scalpel/SSA/anf_syntax.py:124-134 | one entry per block, in input order, each a λ over that block's phi variables |
| AnfSyntax.LoweredBlocksBuffers | src/scalpel/SSA/anf_syntax.py:124-134 | across the blocks, buffers are numbered consecutively from the starting counter |
| AnfSyntax.BlocksLetRec | src/scalpel/SSA/anf_syntax.py:124-134 | `SA_BS`'s result with the corrected `SA_ES`: `IndexError` for no blocks, else the `letrec` of the block labels and their entries around `App([], first label)`, or the first block's error |
| AnfSyntax.RetCallee | src/scalpel/SSA/anf_syntax.py:117 | `ret_term.func_call.name` lowered by `SA_V`: a call's callee; `Not impl` for a plain variable, whose name is a string; `AttributeError` for anything else |
| AnfSyntax.LoweredProcs | src/scalpel/SSA/anf_syntax.py:119-120 | the `letrec`s of the procedures' blocks, lowered with the corrected `SA_ES` in order with the counter carried on, or the first failure |
| AnfSyntax.LoweredProcsStep | src/scalpel/SSA/anf_syntax.py:119-120 | lowering one procedure more appends its `letrec` and carries the counter on |
| AnfSyntax.LoweredProcsErrPersists | src/scalpel/SSA/anf_syntax.py:119-120 | a procedure that fails to lower makes the whole list fail with that procedure's error |
| AnfSyntax.LoweredProcsShape | src/scalpel/SSA/anf_syntax.py:119-120 | one `letrec` per procedure, in order, binding the labels of its blocks |
| AnfSyntax.ProgramLetRec | src/scalpel/SSA/anf_syntax.py:115-121 | `SA_PS`'s result with the corrected `SA_ES`: `IndexError` for no procedures, else the first procedure lowered, then the return term read, then the rest lowered, as one `letrec` of procedure names around the application of the callee; otherwise the first error in that order |
| AnfSyntax.ProgramShape | src/scalpel/SSA/anf_syntax.py:115-121 | the program is a `letrec` binding each procedure's name to the `letrec` of its blocks, in order, around the application of the returned call's callee |
| AnfSyntax.BlocksLetRecBuffers | src/scalpel/SSA/anf_syntax.py:124-134 | a procedure's `letrec` binds buffers numbered consecutively from the starting counter |
| AnfSyntax.LoweredProcsBuffers | src/scalpel/SSA/anf_syntax.py:119-120 | across procedures, buffers are numbered consecutively from the starting counter |
| AnfSyntax.ProgramBuffersDistinct | src/scalpel/SSA/anf_syntax.py:115-121 | over a whole program the buffers are numbered consecutively, so no two standalone calls share a buffer name |
| AnfSyntax.Lowering.constructor | src/scalpel/SSA/anf_syntax.py:106-111 | the lowering holds the program (`ssa_ast_global`) and the buffer counter where the module's counter stands |
| AnfSyntax.AnfModule.constructor | src/scalpel/SSA/anf_syntax.py:106-107 | when the module is loaded the buffer counter is 0 |
| AnfSyntax.AnfModule.Sa | src/scalpel/SSA/anf_syntax.py:109-112 | `SA` lowers the program with the counter the module holds: on success the specification `letrec`, with the module keeping the counter the lowering leaves; on failure exactly the specification's exception |
| AnfSyntax.SaCallsBuffersApart | src/scalpel/SSA/anf_syntax.py:107-112 | since the counter is never reset, two calls of `SA` in a row bind disjoint buffers |
| AnfSyntax.Lowering.SaBs | src/scalpel/SSA/anf_syntax.py:124-134 | `SA_BS` yields the `letrec` of the blocks' λ-entries with body `App([], first label)` and leaves the counter where the specification does, or fails exactly when the specification fails, with its exception (`IndexError` for no blocks, else the first failing block's) |
| AnfSyntax.Lowering.SaPs | src/scalpel/SSA/anf_syntax.py:115-121 | `SA_PS` yields the program `letrec` of the specification and leaves the counter where the specification does, or fails exactly when the specification fails, with its exception |
| AnfSyntax.Lowering.AddProcEntries | src/scalpel/SSA/anf_syntax.py:119-120 | the loop adds each later procedure's name and `letrec`, in order, keeping the body and carrying the counter on; it fails exactly when the specification fails, returning the first failing procedure's exception |
| TextFunctions.Leading | src/scalpel/functions.py:14 | the leading whitespace is the longest all-whitespace prefix of the line |
| TextFunctions.Trailing | src/scalpel/functions.py:15 | the trailing whitespace is the longest all-whitespace suffix of the line |
| TextFunctions.LinesHaveNoBreak | src/scalpel/functions.py:5 | no line of the split holds a line break |
| TextFunctions.RemoveSpaces | src/scalpel/functions.py:11-17 | the substitution of `'[^']*'| `: a quoted segment closed by a later quote is kept, any other space dropped, any other character kept |
| TextFunctions.RemoveSpacesKeepsOthers | src/scalpel/functions.py:11-17 | the substitution removes only spaces: the other characters stay, in order |
| TextFunctions.RemoveSpacesUnquoted | src/scalpel/functions.py:11-17 | without quotes, every space is removed |
| TextFunctions.RemoveSpacesQuoted | src/scalpel/functions.py:11-17 | a quoted segment is kept verbatim, the spaces before it removed |
| TextFunctions.RemoveSpacesChars | src/scalpel/functions.py:11-17 | every character of the result comes from the input |
| TextFunctions.ReplaceLine | src/scalpel/functions.py:8-18 | a comment line as it is; any other line as its leading whitespace, its text with spaces removed, and its trailing whitespace |
| TextFunctions.ReplacedLines | src/scalpel/functions.py:7-18 | one rewritten line per input line, each rewritten on its own |
| TextFunctions.ReplaceSpaces | src/scalpel/functions.py:4-20 | the loop joins, with line breaks, the rewritten lines of the text |
| TextFunctions.ReplaceLineNoBreak | src/scalpel/functions.py:14-17 | a rewritten line holds no line break |
| TextFunctions.ReplaceSpacesLines | src/scalpel/functions.py:4-20 | the output has as many lines as the input, comment lines verbatim and every other line rewritten on its own |
| TextFunctions.TrimLine | src/scalpel/functions.py:33-40 | the character loop computes the specified output line and in-string flag |
| TextFunctions.TrimmedLine | src/scalpel/functions.py:29-46 | a comment line as it is with the flag unchanged; any other line as its leading whitespace, its trimmed text and its trailing whitespace, with the flag after its last character |
| TextFunctions.TrimmedLines | src/scalpel/functions.py:28-46 | one output line per input line |
| TextFunctions.TrimDoubleSpaces | src/scalpel/functions.py:23-48 | the loop joins, with line breaks, the trimmed lines, the flag starting outside a string and carried across lines |
| TextFunctions.TrimCollapses | src/scalpel/functions.py:33-40 | on a line without quotes each run of spaces shrinks to one space and the flag stays off |
| TextFunctions.CollapseRunsNoDouble | src/scalpel/functions.py:37-39 | outside strings no two spaces are left side by side |
| TextFunctions.CollapseRunsKeepsOthers | src/scalpel/functions.py:37-40 | only spaces are dropped |
| TextFunctions.TrimInsideString | src/scalpel/functions.py:34-40 | inside a string that no quote closes, the line is kept whole |
| TextFunctions.TrimFlagParity | src/scalpel/functions.py:34-35 | the flag flips once per quote not preceded by a backslash |
| TextFunctions.LineFlag | src/scalpel/functions.py:30-35 | after one line the flag is flipped once per toggling quote of the line, and unchanged after a comment line |
| TextFunctions.TrimmedLinesFlag | src/scalpel/functions.py:27-35 | the flag carries over from line to line: after any lines it is the start flipped once per toggling quote on the non-comment lines |
| TextFunctions.TrimmedLinesComments | src/scalpel/functions.py:30-32 | comment lines come out verbatim |
| TextFunctions.TrimLineNoBreak | src/scalpel/functions.py:33-40 | a trimmed line holds no line break |
| TextFunctions.TrimmedLinesNoBreak | src/scalpel/functions.py:28-46 | no trimmed line holds a line break |
| TextFunctions.TrimDoubleSpacesLines | src/scalpel/functions.py:23-48 | the output has as many lines as the input and comment lines are verbatim |
| TextFunctions.GetGlobalUniqueName | src/scalpel/functions.py:95-96 | the name is returned unchanged, as the body is written, not the parent-aware unique name its comment describes |
| TextFunctions.UpdateStep | src/scalpel/functions.py:99-104 | an absent name is set to 0, a present one incremented; no other key changes; the result is `name_<new counter>` |
| TextFunctions.IdxStep | src/scalpel/functions.py:106-110 | an absent name is set to 0 and the result is `name_0`; a present one is left as is; no other key changes; the result is `name_<counter>` |
| TextFunctions.IdxStepStable | src/scalpel/functions.py:106-110 | a second call returns the same string and leaves the dictionary unchanged |
| TextFunctions.UpdateRunBound | src/scalpel/functions.py:99-104 | over a run of calls, the i-th returned string is its name with the final counter of that name less the number of later calls for the same name |
| TextFunctions.UpdateRunDistinct | src/scalpel/functions.py:99-104 | a run of calls never returns the same string twice |
| TextFunctions.UsedNames.WithUpdate | src/scalpel/functions.py:99-104 | updates the dictionary and returns the name as the update step specifies |
| TextFunctions.UsedNames.WithIdx | src/scalpel/functions.py:106-110 | updates the dictionary and returns the name as the index step specifies |
| CodeComparator.TrimStart | CodeComparator/src/app/app.component.ts:164-165 | the leading white space removed is maximal |
| CodeComparator.TrimEnd | CodeComparator/src/app/app.component.ts:164-165 | the trailing white space removed is maximal |
| CodeComparator.Trim | CodeComparator/src/app/app.component.ts:164-165 | the trimmed text neither starts nor ends with white space |
| CodeComparator.ToNumber | CodeComparator/src/app/app.component.ts:236-239 | unary `+` on a text: white space around it ignored, an empty text 0, a decimal numeral with an optional sign its value, anything else NaN |
| CodeComparator.ToNumberOfNatToString | CodeComparator/src/app/app.component.ts:236-239 | unary `+` reads a printed number back as itself |
| CodeComparator.ParsePosition | CodeComparator/src/app/app.component.ts:230-241 | the `Position` constructor: a missing or empty text the all-zero span, a text without a comma `TypeError`, otherwise the four numbers read from the two `:`-separated borders, NaN for a missing part |
| CodeComparator.ParsePositionOutcome | CodeComparator/src/app/app.component.ts:230-241 | the constructor fails exactly on a non-empty text without a comma; a null or empty text gives the all-zero position |
| CodeComparator.ParsePositionOfBorders | CodeComparator/src/app/app.component.ts:231-239 | `"a:b,c:d"` gives lineno a, col_offset b, end_lineno c, end_col_offset d, each read with unary `+` |
| CodeComparator.PositionRoundTrip | CodeComparator/src/app/app.component.ts:230-241 | a printed span `l:c,el:ec` parses back to the same four numbers |
| CodeComparator.SpacePrefix | CodeComparator/src/app/app.component.ts:159 | the indentation is the longest run of leading spaces |
| CodeComparator.EntryResults | CodeComparator/src/app/app.component.ts:169-176 | one position outcome per info part, in order |
| CodeComparator.AllOkEach | CodeComparator/src/app/app.component.ts:169-176 | the loop succeeds with one position per part, in order, or stops at the first part that fails |
| CodeComparator.Paired | CodeComparator/src/app/app.component.ts:178-182 | the i-th code word is paired with the i-th position, and with none past the last position |
| CodeComparator.LineWords | CodeComparator/src/app/app.component.ts:152-183 | the words of one ANF line: a comment line one word; otherwise `TypeError` without `--`, else the indentation word and the code words paired with the positions of the info parts, or the first position error |
| CodeComparator.CommentLineWord | CodeComparator/src/app/app.component.ts:152-156 | a comment line yields one word: its text up to the last `--` (empty when there is none), with the all-zero position |
| CodeComparator.MissingInfoFails | CodeComparator/src/app/app.component.ts:164-168 | a code line without `--` raises the `TypeError` of splitting an undefined info |
| CodeComparator.CodeLineShape | CodeComparator/src/app/app.component.ts:158-183 | a parsed code line yields its indentation word, when indented, then its code words paired with the positions of its info parts |
| CodeComparator.CodeLineTexts | CodeComparator/src/app/app.component.ts:158-165 | the indentation word is `&nbsp;` repeated once per leading space; the code words hold no space and join with spaces back into the trimmed code before the first `--` |
| CodeComparator.SpaceFreeWords | CodeComparator/src/app/app.component.ts:165 | splitting at spaces gives space-free words that join back into the text |
| CodeComparator.CodeLinePositions | CodeComparator/src/app/app.component.ts:164-182 | the i-th code word carries the position of the i-th info part, and none past the last part |
| CodeComparator.CollectWords | CodeComparator/src/app/app.component.ts:150-184 | the word lists of the lines, in order, up to the first line that fails, and that line's error |
| CodeComparator.CollectErrPersists | CodeComparator/src/app/app.component.ts:150-184 | once a line fails, later lines change nothing |
| CodeComparator.CollectEach | CodeComparator/src/app/app.component.ts:150-184 | value i is outcome i for every outcome before the first error, one value per outcome when none fails, and the values stop at the first error |
| CodeComparator.CollectWordsOnePerLine | CodeComparator/src/app/app.component.ts:148-184 | word list i is the words of line i for every line before the first that fails, one per line when none fails |
| CodeComparator.AppComponent.constructor | CodeComparator/src/app/app.component.ts:24-29 | the fields start empty |
| CodeComparator.AppComponent.ParseFile | CodeComparator/src/app/app.component.ts:140-186 | the Python part and the ANF part of the file are stored and split into lines, the word collection is reset and gets one word list per ANF line, or the first failing line's error; a file without the separator leaves `anfCode` undefined and fails with `TypeError` before `anfCodeLines` and `wordCollection` change |
| CodeComparator.ParseLine | CodeComparator/src/app/app.component.ts:152-183 | the loop body computes the words of the line as specified, or its error |
| CodeComparator.ParseEntries | CodeComparator/src/app/app.component.ts:168-176 | the loop computes the positions of the info parts, or the first error |
| CodeComparator.PushWords | CodeComparator/src/app/app.component.ts:178-182 | the loop appends the code words paired with the positions |
| CodeComparator.IsKeyWord | CodeComparator/src/app/app.component.ts:188-192 | the text is one of `let`, `letrec`, `=`, `in`, `if`, `else`, `then` |
| CodeComparator.IsFunCall | CodeComparator/src/app/app.component.ts:193-195 | the text starts with `_`, not with `_SSA`, and is not `_` alone |
| CodeComparator.IsBlockLabel | CodeComparator/src/app/app.component.ts:196-198 | an `L` followed by a digit occurs somewhere in the text |
| CodeComparator.IsBufferVariable | CodeComparator/src/app/app.component.ts:199-201 | the text starts with `%` |
| CodeComparator.IsConstant | CodeComparator/src/app/app.component.ts:202-204 | the text starts with a digit or is `True` or `False` |
| CodeComparator.IsComment | CodeComparator/src/app/app.component.ts:205-207 | the text is spaces followed by `#` |
| CodeComparator.IsString | CodeComparator/src/app/app.component.ts:208-210 | the text holds two single quotes with no line terminator between them |
| CodeComparator.KeywordsAreOnlyKeywords | CodeComparator/src/app/app.component.ts:188-204 | a keyword is not also a call, a buffer variable, a constant or a block label |
| CodeComparator.CallsAreNotValues | CodeComparator/src/app/app.component.ts:193-204 | `isFunCall` holds exactly for texts of two or more characters starting with `_` but not `_SSA`; a call is not a buffer variable or a constant |
| CodeComparator.LiteralsClassified | CodeComparator/src/app/app.component.ts:196-210 | `L<n>` is a block label, a numeral a constant and not a call, a single-quoted text a string |

## Left out

- `compute_DF` and `compute_idom` (src/scalpel/SSA/const.py:556-608) call networkx; the dominance frontiers are an input map.
- The statement analysis (`get_stmt_idents_ctx`, `get_identifiers`, `parse_val`, `get_attribute_stmts`) inspects Python AST nodes; each statement is reduced to the names it stores and loads, in order.
- `ident_const_dict` and `block_const_dict` in `compute_SSA2`: their values are Python AST nodes produced by the statement analysis.
- The older `compute_SSA` pass, `to_json` and `print_block` of const.py are not modelled; `compute_SSA2` supersedes the first and the others are stubs.
- `SSACode`, `PY_to_SSA_AST`, `PS_FS`, `PS_S`, `PS_E` and `PS_MAP2` of ssa_syntax.py translate Python AST and CFG objects and print to stdout; `PS_B` is handed each block's already translated statements, and the renaming tables as explicit maps, so the labels `PS_S` registers in the memo table for an `if`'s exits are not among those the model's memo table gains.
- `SA` and `parse_ssa_to_anf` read `ssa_ast.ret_term`, which the SSA AST class does not have; `SA_PS` is modelled with the return term as a parameter.
- `SA_ES` prints the found block's label before lowering a jump; the output is left out, while the failure of that print on a missing block is kept as `AttributeError`.
- The provenance printer and parser and the ANF-to-SSA reconstructor are not part of this model; their source is not among the files modelled.
- `fix_comment_positioning` and `insert_comment_rec` (src/scalpel/functions.py:51-90) walk Python AST objects by reflection.
- `hoveredOver`, `onFileChange`, the highlighting fields and app.config.ts are UI, DOM and file-reader code.
- Object identity is not modelled: links, blocks and labels are compared by value, and `PS_B_REF` memoises by block id.
- Error messages are modelled by the exception's name only.
- TextFunctions.IsSpace: Python's `\s` also matches Unicode white space; the model takes the ASCII white-space characters only.
- TextFunctions.IsCommentLine: `comm_char` is spliced into a regular expression by the source; the model matches it as literal text, so a comment marker holding regular-expression metacharacters is not covered.
- CodeComparator.ToNumber: unary `+` is modelled for optionally signed decimal integers after trimming, the empty text as 0 and everything else as NaN; fractions, exponents, hexadecimal, `Infinity` and negative zero are not modelled, and the value is an exact integer, where JavaScript's double-precision number rounds numerals beyond 2^53.
- CodeComparator.IsBlockLabel, CodeComparator.IsConstant, CodeComparator.IsComment and CodeComparator.IsString are stated directly over the text instead of through a regular-expression engine; `isComment` and `isString` have no separate lemma beyond their definitions and `LiteralsClassified`.
- SsaConst.FindVarUsagesInPredecessors: models the corrected scan order (phi stores first); the order as written is kept in the specification function and shown by `AsWrittenSearchPrefersPhi`.
- SsaConst.HighestNr: models the corrected scan order (phi stores first, then statement stores); the order as written (statement stores first) is `HighestNrAsWritten`.
- SsaConst.ResolvePhis: resolves every phi with the corrected, phis-first search, not the scan order as written.
- SsaConst.ComputeSsa2: its phi arguments (`PhisResolved`) are those of the corrected, phis-first search, not the scan order as written.
- SsaConst.RenamedBlockHandsOnHighest: holds of the corrected, phis-first scan; the scan as written hands on a phi version instead (`AsWrittenSearchPrefersPhi`).
- SsaConst.PredecessorVersionsComplete: states that each reachable version is in the result, not how often or in which position it appears there; the exact list is `FindVarUsagesInPredecessors`'s contract.
- AnfSyntax.Lowering.SaBs: models the corrected `SA_ES` (buffer counter raised before the rest is lowered, jump lookup by label text); the code as written is the `AsWritten` variant of the same function.
- AnfSyntax.Lowering.SaPs: lowers every block with the corrected `SA_ES`, not the code as written.
- AnfSyntax.Lowering.AddProcEntries: lowers every block with the corrected `SA_ES`, not the code as written.
- AnfSyntax.AnfModule.Sa: lowers with the corrected `SA_ES`, and takes the return term as a parameter since the SSA AST has no `ret_term`.
- AnfSyntax.LoweredBlocks, AnfSyntax.BlocksLetRec, AnfSyntax.LoweredProcs, AnfSyntax.ProgramLetRec and the lemmas about them (their steps, shapes, failures and buffer numbering) are stated for the corrected `SA_ES`; the code as written is the `AsWritten` variant of `SaEs`.
- AnfSyntax.Lowering.SaBs, AnfSyntax.Lowering.SaPs and AnfSyntax.AnfModule.Sa: after a failure the counter is not stated; a failing `SaEs` carries no counter, so the increments the source makes before the exception are not modelled.
- AnfSyntax.Lowering.AddProcEntries: after a failure the builder's entries are not stated; the source discards the half-built `letrec` when the exception propagates.
- TextFunctions.GetGlobalUniqueName: functions.py:94 describes a global unique name that takes the parent variables into account, but the function returns `var_name` as it is; the model follows the code, and no uniqueness is promised.

## Findings

| source | as written | input that shows it | evidently intended | confidence | as-written member | corrected member |
|---|---|---|---|---|---|---|
| src/scalpel/SSA/const.py:328-331 | each predecessor's statement stores are scanned before its phi stores, and the last match wins, so a block with both hands on its phi version | a loop block with a phi `x_1` and a statement store `x_2`: the back edge contributes version 1 | the block's last definition, its highest version (`highest_nr`): phi stores scanned first | not executed; medium | SsaConst.AsWrittenSearchPrefersPhi | SsaConst.RenamedBlockHandsOnHighest |
| src/scalpel/SSA/anf_syntax.py:155-158 | the buffer name is read from the counter, the rest of the list lowered, and only then the counter incremented | two standalone calls `f()` in a row: both are bound to `zBuf0` | one fresh buffer per call: increment before lowering the rest | not executed; high | AnfSyntax.AsWrittenBuffersCollide | AnfSyntax.BuffersNumbered |
| src/scalpel/SSA/anf_syntax.py:146-148 | the jump's label object is handed to `get_block_by_id`, which compares it with label strings (src/scalpel/SSA/ssa_syntax.py:220), finds nothing, and reading `.label` of `None` raises `AttributeError` | any block ending in a jump | look the target block up by its label text | not executed; high | AnfSyntax.AsWrittenGotoFails | AnfSyntax.GotoLowersToJump |
