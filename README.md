# LL1Checker, modelled in Dafny

LL1Checker reads a grammar. It checks that the grammar is LL(1): every non-terminal has at most one production per lookahead terminal. It then parses a token stream with the resulting table. This project models the checker's core in both generations of the repository.

- **Current generation**
  - The symbol table: names with their kind and pattern, token ids, an insertion-order list and the end marker.
  - The grammar: the greedy longest-match splitter, `AddRule`, the small queries, and the step that loads parsed rules.
  - The `LL1Parser` class:
    - `first`, the FIRST fixed point;
    - `follow` as a recursive walk with a visited set;
    - the iterative `ComputeFollowSets`/`UpdateFollow` documented in the header;
    - director symbols and table construction with conflict detection;
    - the `parse` stack machine with its bounded trace.
- **Earlier generation**
  - The registry whose lookups insert through `operator[]`.
  - The splitter that silently drops an unrecognised tail.
  - The worklist `header`, the one-symbol-ahead `nextUtil`/`next`, and `director_symbol`.
  - The table builder that gives up on the first duplicate cell, and the parse loop that stops at the literal `"$"`.

## Layout

- `wrappers.dfy`: `Option`, `Result` and `Outcome`. The module `Errors` holds the exceptions as values: `GrammarError`, `std::out_of_range` from a map lookup, and from a vector index.
- `symbol_table.dfy`: module `SymbolTable`.
  - The C++ keeps the table in process-wide statics. Here it is one object, `SymbolTable.SymbolTable`, passed to whoever needs it.
  - Its invariant relates the forward and reverse id maps, `order` and the next-id counter.
- `grammar.dfy`: module `Grammar`.
  - `Split` is a `start`/`end`/`lookahead` loop. It is proved equal to the recursive specification `Scan`.
  - Also here: the `Grammar` class with `g` and `axiom`, the pure queries, and `LoadRules`, the tail of `ReadFromFile`.
- `closure.dfy`: `Reach`, the least set closed under a successor graph. Both FOLLOW walks are specified with it.
- `ll1_sets.dfy`: pure specifications.
  - FIRST of a sequence (`FirstScan`/`FirstOf`) and the least FIRST solution (`LeastFirst`).
  - What the FOLLOW walk gathers (`FollowSpec`), and the least solution of the FOLLOW equations (`FollowFix`).
  - Director sets, the table (`TableSpec`) and conflicts.
- `ll1_parser.dfy`: the class `LL1Parser`.
  - Its fields are `firstSets`, `followSets`, `ll1`, `symbolStack` and `trace`. It also holds the symbol table, grammar, axiom and end marker it was built for.
  - Each method that loops is proved against the functions of `LL1Sets`.
- `parse_machine.dfy`: one turn of the parse loop as a step function, and a run of it.
- `legacy_symbol_table.dfy`, `legacy_grammar.dfy`, `legacy_parser.dfy`, `legacy_table.dfy`: the earlier generation.

### Modelling conventions

- **Hash-container order.** Iteration over an `unordered_map` or `unordered_set` is a nondeterministic choice (`:|`). Each result is proved independent of the order.
- **Token source.** It is a sequence of tokens. Its `next()` gives `""` once the sequence is exhausted (src/lexer.cpp:58-60, lexer.cpp:79-81).
- **Fuel.** `parse`, the earlier `header` and the earlier parse loop have no termination measure, so they take fuel. Running out of fuel is an outcome of its own (`OutOfFuel`, `Exhausted`) that the C++ does not have.
- **Exceptions and `exit(-1)`.** These become result values:
  - a `Result`/`Outcome` error;
  - `Aborted` for an exception escaping `parse`;
  - `Fault` in `header`;
  - the error `UndefinedAccess` for reading the first symbol of an empty production with `operator[]` (src/grammar.cpp:136, src/LL1_parser.cpp:36). This is undefined behaviour in C++, not an exception. The model stops there, and no contract says what would follow;
  - `Conflict` or `NotLL1` for the builder's exit.
- **Where the code differs from its documentation, the model follows the code.**
  - `parse` accepts as soon as the input or the stack runs out, without checking the other (src/ll1_parser.cpp:87, 119). The header says it needs both (include/ll1_parser.hpp:61-63).
  - The lookahead enters the trace before the comparison, so a mismatching symbol is recorded too (src/ll1_parser.cpp:109-115). The header says only on a match (include/ll1_parser.hpp:75-78).
  - Re-registering a terminal is not rejected: it gets a fresh id.
  - `AddRule` performs no left-recursion check.
  - `SetAxiom` does not check that the axiom is a non-terminal of the grammar.
  - `follow` reached by recursion into the axiom does not pick up the end marker.
  - The earlier end marker is the escaped `\$`, whereas its parse loop stops at the literal `"$"`.

## Model

| member | source | states |
|---|---|---|
| SymbolTable.SymbolTable.constructor | include/symbol_table.hpp:10-35 | The initial table holds exactly `$` and EPSILON, as terminals whose pattern is their own name. Only `$` has a token id, 1, in both id maps. `order` is `[1]`, the next id is 2, and EPSILON has no id. The invariant holds. |
| SymbolTable.PutTerminalKeeps | include/symbol_table.hpp:23-47 | Registering a terminal under the next fresh id keeps the table invariant. Ids `1..next-1` are listed in order. The reverse map covers exactly those ids and inverts the forward map away from id 1. Every name holding an id is a terminal. |
| SymbolTable.SymbolTable.PutTerminal | src/symbol_table.cpp:6-12 | The name becomes a terminal with the pattern, overwriting any entry. It receives the old next id in the forward map, and the reverse map sends that id back to it. `order` gains exactly that id at its end and the counter goes up by one. The id is never the end marker's. The invariant is kept. |
| SymbolTable.SymbolTable.PutNonTerminal | src/symbol_table.cpp:14-16 | Insert-only: a registered name (even a terminal) is left unchanged. A new name becomes a non-terminal with an empty pattern. |
| SymbolTable.SymbolTable.IsTerminal | src/symbol_table.cpp:34-36 | Fails with `out_of_range` exactly on an unregistered name. Otherwise it answers whether the name is a terminal. |
| SymbolTable.SymbolTable.GetValue | src/symbol_table.cpp:18-20 | Fails exactly on an unregistered name. Otherwise it returns the stored pattern. |
| SymbolTable.SymbolTable.SetEol | src/symbol_table.cpp:38-43 | The new marker becomes a terminal with its own pattern and id 1 in both maps. The old marker's entries stay in place, and the invariant holds. |
| Grammar.LongestPrefix | src/grammar.cpp:98-109 | Gives the length of the longest registered prefix: no longer prefix is registered, and 0 when there is none. |
| Grammar.Scan | src/grammar.cpp:95-121 | On success the pieces concatenate back to the input, and each piece is a non-empty registered name. On failure the error is a `GrammarError` carrying a non-empty suffix of the input that has no registered prefix. |
| Grammar.Split | src/grammar.cpp:87-121 | The index loop returns exactly `SplitSpec`: `[EPSILON]` for the EPSILON string, otherwise `Scan`'s pieces. It fails exactly when the scan does, with the message "Error processing the line " followed by the unrecognised rest of the consequent. |
| Grammar.CutLongest | src/grammar.cpp:98-109 | Cutting the longest registered prefix at `start` is one step of the scan. |
| Grammar.RemainderUnknown | src/grammar.cpp:115-118 | A remainder with no registered prefix makes the split fail with that remainder. |
| Grammar.ScanLongestMatch | src/grammar.cpp:98-109 | Every piece of a successful split is the longest registered prefix of the input remaining at that point. |
| Grammar.ScanJoin | src/grammar.cpp:95-120 | Round trip: if no registered name is a proper prefix of another, splitting the concatenation of registered names gives those names back. |
| Grammar.SplitJoin | src/grammar.cpp:87-121 | The same round trip through `Split`'s EPSILON shortcut. |
| Grammar.LongestMatchExample | src/grammar.cpp:99-106 | With `A`, `A1` and `1` registered, `"A1"` splits into `["A1"]`, not `["A", "1"]`. |
| Grammar.Grammar.constructor | include/grammar.hpp:116-125 | A new grammar has no rules and an empty axiom. |
| Grammar.Grammar.AddRule | src/grammar.cpp:123-127 | When the split succeeds, its pieces are appended as the last production of the antecedent, which is created on first use, and nothing else changes. When the split fails, the grammar is unchanged and the error is returned. |
| Grammar.Grammar.SetAxiom | src/grammar.cpp:129-131 | Records the axiom, unchecked. |
| Grammar.HasEmptyProduction | src/grammar.cpp:133-138 | `OutOfRange` exactly when the antecedent has no entry, otherwise the search of `ScanEmptyProduction` over its productions. |
| Grammar.ScanEmptyProduction | src/grammar.cpp:135-137 | The `find_if` in list order. True iff some production starts with EPSILON and no empty production comes before it. `UndefinedAccess` iff an empty production comes before any production starting with EPSILON. False otherwise. |
| Grammar.ScanEmptyProductionDefined | src/grammar.cpp:135-137 | Without empty productions, the search is defined and is true iff some production starts with EPSILON. |
| Grammar.FilterRulesByConsequent | src/grammar.cpp:140-152 | A pair is in the result exactly when it is a production of the grammar that contains `arg`, counted once however often `arg` occurs. |
| Grammar.HasLeftRecursion | src/grammar.cpp:192-195 | Fails on an empty consequent. Otherwise it is true iff the first symbol is the antecedent. |
| Grammar.SplitAll | src/grammar.cpp:80-84 | Succeeds iff every consequent splits, and then holds each split in order. |
| Grammar.RegisterNonTerminals | src/grammar.cpp:74-77 | Every antecedent becomes registered. Existing entries are kept and new ones are non-terminals. |
| Grammar.AddRules | src/grammar.cpp:80-84 | Passes iff every consequent splits. It then appends their splits, in order, to the antecedent. |
| Grammar.LoadRules | src/grammar.cpp:74-84 | The table gains the antecedents as above before any rule is split. The load passes iff every consequent splits. It then extends each antecedent's productions by its splits and leaves every other antecedent unchanged. |
| LL1Sets.FirstScanMember | src/ll1_parser.cpp:127-142 | A non-EPSILON symbol is in FIRST of a sequence iff some position has only nullable non-terminals before it and either is that terminal or has it in its cached FIRST set. |
| LL1Sets.FirstScanEpsilon | src/ll1_parser.cpp:137-146 | EPSILON is in FIRST of an EPSILON-free sequence iff every symbol is a non-terminal whose cached FIRST holds EPSILON. |
| LL1Sets.FirstScanConcat | src/ll1_parser.cpp:129-142 | FIRST of `p + q` is FIRST(p) without EPSILON, plus FIRST(q) when p is nullable. |
| LL1Sets.FirstScanMono | src/ll1_parser.cpp:150-176 | FIRST of a sequence only grows as the cached sets grow. |
| LL1Sets.FirstScanTerminals | src/ll1_parser.cpp:129-146 | If the cached sets hold only terminals and EPSILON, so does FIRST of any sequence. |
| LL1Sets.MissingShrinks | src/ll1_parser.cpp:154-174 | Inside the finite alphabet, a pass that changes a set strictly shrinks what is still missing. This is why the loop terminates. |
| LL1Sets.LeastFirstIsLeast | include/ll1_parser.hpp:174-184 | The iteration from empty sets reaches a solution of the FIRST equations that lies below every other solution: the least fixed point. |
| LL1Sets.LeastFirstUnique | src/ll1_parser.cpp:154-174 | A solution below the least solution is the least solution. |
| LL1Sets.LeastFirstTerminals | src/ll1_parser.cpp:129-146 | The least FIRST sets hold only terminals and EPSILON. |
| LL1Sets.FirstSetsSpecSolution | src/ll1_parser.cpp:175 | Removing the end marker from FIRST(axiom) leaves the least solution unchanged, when the marker is not a grammar symbol. |
| LL1Sets.FollowSpecNoEpsilon | src/ll1_parser.cpp:178-189 | `follow` of a non-axiom never contains EPSILON. |
| LL1Sets.FollowFixIsSolution | include/ll1_parser.hpp:196-201 | The walk-based sets plus the end marker where the axiom is reachable satisfy the FOLLOW equations. |
| LL1Sets.FollowFixLeast | include/ll1_parser.hpp:196-201 | Those sets lie below every solution of the FOLLOW equations. |
| LL1Sets.LeastFollowIsWalk | src/ll1_parser.cpp:178-189 | The least FOLLOW set of a non-axiom non-terminal is what `follow` returns, plus `$` exactly when the walk reaches the axiom. |
| LL1Sets.FollowSolutionAt | include/ll1_parser.hpp:196-201 | A family solves the FOLLOW equations iff `$` is in FOLLOW(axiom) and every occurrence `A -> αBβ` satisfies rule 2. |
| LL1Sets.InitialFollow | include/ll1_parser.hpp:197 | The start of the iteration is `{$}` at the axiom and empty everywhere else. |
| LL1Sets.FollowIterationResult | include/ll1_parser.hpp:186-213 | A stable iteration state is the least solution. At each non-axiom non-terminal it equals the `follow` walk plus `$` when the axiom is reachable. At the axiom it contains the walk. |
| LL1Sets.CellMembers | src/ll1_parser.cpp:45-59 | Cell (A, t) holds exactly the productions of A whose director set contains t. |
| LL1Sets.CellTwo | src/ll1_parser.cpp:51-56 | A cell holds two or more productions iff two distinct productions share that director symbol. |
| LL1Sets.ConflictIffOverlap | src/ll1_parser.cpp:42-62 | The table has a conflicting cell iff two productions of one antecedent have overlapping director sets. |
| LL1Sets.LeftRecursionConflicts | include/grammar.hpp:101-114 | A left-recursive production shares every non-EPSILON FIRST symbol of any sibling production. The grammar is then not LL(1). |
| LL1Sets.TableCellsNonEmpty | src/ll1_parser.cpp:51-56 | Every cell of the built table holds at least one production, so `[0]` in `parse` is defined. |
| LL1Sets.ColumnSnoc | src/ll1_parser.cpp:48-58 | Adding one more production to a column appends it to the cell of each of its director symbols. |
| LL1Sets.TableOnAll | src/ll1_parser.cpp:45-61 | Building the columns of all antecedents gives the table. It has a conflict iff some column has one. |
| LL1Parser.AddToColumn | src/ll1_parser.cpp:51-57 | Appends p to each director symbol's cell, whatever order the set is visited in. The conflict flag ends true iff some cell of the result holds two or more productions. |
| LL1Parser.WalkDone | src/ll1_parser.cpp:227-258 | A walk started with nothing visited visits exactly the nodes reachable in the follow graph. It gathers the union of their direct contributions. |
| LL1Parser.LL1Parser.constructor | include/ll1_parser.hpp:317-339 | A parser starts with empty sets, an empty table, an empty stack and an empty history. |
| LL1Parser.LL1Parser.First | src/ll1_parser.cpp:122-148 | The loop computes `FirstOf` over the cached sets: `{EPSILON}` for exactly `[EPSILON]`, otherwise the scan described above. |
| LL1Parser.LL1Parser.AddProductionsFirst | src/ll1_parser.cpp:162-166 | Adding each production's FIRST to its antecedent only grows the sets, within the least solution. If nothing changed, every production of A is satisfied. |
| LL1Parser.LL1Parser.FirstPass | src/ll1_parser.cpp:161-167 | One pass only grows the sets, within the least solution. A pass that changes nothing leaves a solution. |
| LL1Parser.LL1Parser.ComputeFirstSets | src/ll1_parser.cpp:150-176 | The loop ends with the least FIRST solution, with the end marker removed from the axiom's set. |
| LL1Parser.LL1Parser.FollowUtil | src/ll1_parser.cpp:227-258 | The recursive walk with a visited set. It adds every symbol reachable from `arg` to `visited`. It adds their contributions (FIRST of what follows each occurrence, without EPSILON) to the accumulator. |
| LL1Parser.LL1Parser.FollowRule | src/ll1_parser.cpp:237-257 | The occurrence loop over one rule keeps the walk's invariant across the whole consequent. |
| LL1Parser.LL1Parser.FollowOccurrence | src/ll1_parser.cpp:241-255 | One occurrence adds FIRST of the suffix without EPSILON. It recurses into the antecedent when the occurrence is last or the suffix is nullable. |
| LL1Parser.LL1Parser.Follow | src/ll1_parser.cpp:178-189 | Returns exactly `FollowSpec`: `{$}` for the axiom. Otherwise it is the union of the direct contributions of the nodes reachable from `arg`. That union has no EPSILON, and the end marker is never added on the way, even when the walk reaches the axiom. |
| LL1Parser.LL1Parser.UpdateFollow | include/ll1_parser.hpp:215-233 | Adds FIRST of the rest without EPSILON to FOLLOW(symbol), plus FOLLOW(lhs) when the rest can vanish. Returns true exactly when the set grew. |
| LL1Parser.LL1Parser.FollowProduction | include/ll1_parser.hpp:196-201 | One production's occurrences: the sets only grow, within the least solution. Stable means every occurrence satisfies rule 2. |
| LL1Parser.LL1Parser.FollowProductions | include/ll1_parser.hpp:196-201 | The same across all productions of one antecedent. |
| LL1Parser.LL1Parser.FollowPass | include/ll1_parser.hpp:196-201 | The same across the grammar. The result says whether anything changed. |
| LL1Parser.LL1Parser.ComputeFollowSets | include/ll1_parser.hpp:186-213 | Ends with a solution of the FOLLOW equations that is least at every non-terminal. At each non-axiom non-terminal it equals `follow` plus `$` when the axiom is reachable. At the axiom it contains the walk. |
| LL1Parser.LL1Parser.DirectorSymbols | src/ll1_parser.cpp:191-202 | FIRST(p) when EPSILON is not in it. Otherwise FIRST(p) without EPSILON, together with FOLLOW(A). |
| LL1Parser.LL1Parser.TableColumn | src/ll1_parser.cpp:47-58 | Builds A's column exactly as `ColumnSpec`: each cell lists, in production order, the productions with that director symbol. Reports whether some cell has two. |
| LL1Parser.LL1Parser.CreateLL1Table | src/ll1_parser.cpp:42-62 | Computes the least FIRST sets. It inserts every column not yet present and goes on past conflicts. Returns true iff no cell holds two or more productions. |
| LL1Parser.LL1Parser.ProcessNonTerminal | src/ll1_parser.cpp:94-107 | With a cell, it pushes its first production in reverse and answers true. Without one, it answers `HasEmptyProduction`, which throws for a name without rules, and leaves the stack unchanged. |
| LL1Parser.LL1Parser.MatchTerminal | src/ll1_parser.cpp:108-117 | Records the lookahead in the history, dropping the oldest of five, before comparing. Answers whether the terminal equals the lookahead. |
| LL1Parser.LL1Parser.Parse | src/ll1_parser.cpp:82-120 | The loop ends with the outcome, stack and history of the machine's run from the axiom pushed and the first token read. |
| LL1Parser.NewParser | src/ll1_parser.cpp:16-40 | Construction fails with "Grammar provided is not LL1." exactly when two productions of an antecedent have overlapping director sets. Otherwise the parser holds the least FIRST sets and the table, whose cells are non-empty. |
| ParseMachine.ReverseIndex | src/ll1_parser.cpp:98-100 | Pushing a production in reverse puts its i-th symbol i places below the top, so its first symbol is on top. |
| ParseMachine.RecordKeepsRecent | include/ll1_parser.hpp:317-318 | The history ends with the new symbol and is a suffix of the old one followed by it. It holds min(old length + 1, 5) entries. |
| ParseMachine.RunTraceBound | include/ll1_parser.hpp:136-142 | A run never lets the history exceed five symbols. |
| ParseMachine.AcceptedOnlyWhenDone | src/ll1_parser.cpp:87-119 | A run accepts only when the lookahead is `""` or the stack is empty. |
| ParseMachine.ExpansionTop | src/ll1_parser.cpp:94-100 | Expanding a non-terminal replaces it by its production, whose first symbol ends on top, and leaves the rest of the stack alone. |
| ParseMachine.TruncatedInputAccepted | src/ll1_parser.cpp:87-119 | With S -> a b, the input `a` is accepted, with `b` still on the stack. |
| ParseMachine.TrailingInputAccepted | src/ll1_parser.cpp:87-119 | With S -> a b, the input `a b b` is accepted, with the extra `b` never read. |
| LegacySymbolTable.Touch | symbol_table.cpp:42-44 | What a lookup through `operator[]` leaves. Every old entry is unchanged, and an unknown name is added as a non-terminal with an empty pattern. |
| LegacySymbolTable.ExtendsKinds | symbol_table.cpp:42-44 | Such insertions never change which names are terminals. |
| LegacySymbolTable.SymbolTable.constructor | symbol_table.cpp:6-12 | Initially `\$` and EPSILON are terminals with their own names as patterns, and `rst` maps each to itself. |
| LegacySymbolTable.SymbolTable.PutSymbol | symbol_table.cpp:14-18 | Overwrites the entry with (kind, pattern) and makes the pattern lead back to this name, taking it over from an earlier one. |
| LegacySymbolTable.SymbolTable.PutSymbolNoPattern | symbol_table.cpp:20-22 | Overwrites the entry with (kind, `""`) and leaves `rst` alone. |
| LegacySymbolTable.SymbolTable.GetValue | symbol_table.cpp:24-26 | Returns the pattern, or `""` for an unknown name, which it then registers as a non-terminal. |
| LegacySymbolTable.SymbolTable.IsTerminal | symbol_table.cpp:42-44 | Answers whether the name was a terminal. An unknown name is not, and it ends up registered as a non-terminal. |
| LegacyGrammar.ScanPrefix | grammar.cpp:15-35 | The pieces concatenate to a prefix of the input and are non-empty registered names. No registered name is a prefix of the rest. |
| LegacyGrammar.ScanPrefixAgrees | grammar.cpp:15-35 | The earlier splitter covers the whole input iff the current one succeeds, and then both give the same pieces. Where the current one fails, the remainder it reports is exactly the tail the earlier one drops. |
| LegacyGrammar.ScanPrefixLongestMatch | grammar.cpp:18-29 | Every piece is the longest registered prefix of what remained. |
| LegacyGrammar.Grammar.Split | grammar.cpp:7-36 | The index loop returns `[EPSILON]` for the EPSILON string, otherwise the scan's pieces, with no error. |
| LegacyGrammar.Grammar.AddRule | grammar.cpp:38-45 | Appends the split to the antecedent's list, creating it on first use. Nothing else changes. |
| LegacyGrammar.Grammar.SetAxiom | grammar.cpp:47 | Records the axiom. |
| LegacyParser.PushExpansions | src/LL1_parser.cpp:44-53 | Pushes each production of the leading non-terminal followed by the rest of the item, in list order. |
| LegacyParser.ComputeHeader | src/LL1_parser.cpp:27-58 | The worklist loop returns `Header`: the symbols found, a fault (`UndefinedAccess` for an empty item, `OutOfRange` for a non-terminal without rules), or exhaustion of fuel. Its lookups only add non-terminal entries to the table. |
| LegacyParser.HeaderRunSound | src/LL1_parser.cpp:39-43 | What `header` finds contains what it started with and holds only terminals and EPSILON. |
| LegacyParser.HeaderSound | src/LL1_parser.cpp:27-58 | `header` finds only terminals and EPSILON. |
| LegacyParser.HeaderRunFuel | src/LL1_parser.cpp:33-55 | More fuel never changes a result that did not run out. |
| LegacyParser.HeaderOfTerminal | src/LL1_parser.cpp:36-42 | An item starting with a terminal contributes exactly it, and `[EPSILON]` contributes EPSILON. |
| LegacyParser.LeftRecursionExhausts | src/LL1_parser.cpp:33-55 | When A's only production is A w, a worklist holding an item that starts with A never empties. |
| LegacyParser.HeaderLeftRecursive | src/LL1_parser.cpp:33-55 | So `header([A])` runs out of any amount of fuel, as the TODO note on `header` warns. |
| LegacyParser.NextDone | src/LL1_parser.cpp:60-89 | A walk started from scratch visits exactly the nodes reachable through "occurs last in a production of". Every header it needs is found, and the result without EPSILON is `NextSet`. |
| LegacyParser.NextUtil | src/LL1_parser.cpp:60-89 | The recursive walk with a visited set. It either gathers the headers of the symbols right after each occurrence of a reachable node, or fails as one of those headers fails. |
| LegacyParser.NextRules | src/LL1_parser.cpp:67-88 | The loop over the rules containing `arg` keeps the walk's invariant, or fails as a needed header fails. |
| LegacyParser.NextRule | src/LL1_parser.cpp:78-87 | The occurrence loop over one rule keeps the same invariant. |
| LegacyParser.NextOccurrence | src/LL1_parser.cpp:80-86 | A last occurrence recurses into the antecedent. Any other adds `header` of the single next symbol only. |
| LegacyParser.Next | src/LL1_parser.cpp:91-100 | Finishes iff every needed header does. The result is then `NextSet`, the union of those headers without EPSILON and without any end marker. On failure it is one of those headers' failures. |
| LegacyParser.NextFailNotFound | src/LL1_parser.cpp:91-100 | A failing `next` is never also a finished one. |
| LegacyParser.NextSetTerminals | src/LL1_parser.cpp:91-100 | `next` holds terminals only, never EPSILON. |
| LegacyParser.DirectorSymbol | src/LL1_parser.cpp:102-113 | `header(p)` when EPSILON is not in it. Otherwise `header(p)` without EPSILON, together with `next(A)`. A failure is that of `header(p)` when `header(p)` fails, since it is computed first. Otherwise it is the failure of a header that `next` needed. |
| LegacyParser.DirectorSetTerminals | src/LL1_parser.cpp:102-113 | A director set holds terminals only, never EPSILON. |
| LegacyParser.NextOneSymbolAhead | src/LL1_parser.cpp:83-85 | In S -> A B c, A -> a, B -> EPSILON, `next(A)` is empty, although c can follow A. |
| LegacyParser.LookaheadNeeds | src/LL1_parser.cpp:77-88 | There, the only header `next(A)` asks for is that of B. |
| LegacyParser.LookaheadHeaderB | src/LL1_parser.cpp:36-40 | And `header([B])` is just `{EPSILON}`. |
| LegacyTable.InsertAll | src/LL1_parser.cpp:181-186 | Inserting a production under every director symbol succeeds iff none of them has a cell yet. The column then gains exactly those cells. |
| LegacyTable.ColumnUnique | src/LL1_parser.cpp:178-187 | With pairwise disjoint director sets, a column is determined. |
| LegacyTable.TableUnique | src/LL1_parser.cpp:176-191 | An LL(1) grammar has exactly one table. |
| LegacyTable.TableKeysTerminal | src/LL1_parser.cpp:176-191 | Every table key is a terminal, never EPSILON. |
| LegacyTable.BuildColumn | src/LL1_parser.cpp:178-188 | Builds a column iff the director sets of A's productions are pairwise disjoint. Productions are taken in list order. A clash is reported at the first production whose director set meets an earlier one. A failure is that of the first production whose director set cannot be computed. In both cases, every production before it has a known set, disjoint from the others. |
| LegacyTable.CreateLL1Table | src/LL1_parser.cpp:176-191 | Builds the table iff the grammar is LL(1). On the first duplicate cell it stops with `Conflict`, which the C++ reports by `exit(-1)`. A conflict or failure is the first one, in list order, within some antecedent's column. |
| LegacyTable.ClashNotLL1 | src/LL1_parser.cpp:181-185 | One overlap in one column means the grammar is not LL(1). |
| LegacyTable.ParseWith | src/LL1_parser.cpp:196-225 | The loop's outcome is that of `Run` from the axiom and the first token. |
| LegacyTable.LL1Parse | src/LL1_parser.cpp:193-226 | It parses iff the grammar is LL(1). The table then exists, and the outcome is `Run` over it (and over any table of the grammar, since there is only one). Otherwise it reports the first overlap or failure within some column. |
| LegacyTable.RunAcceptsWhenDone | src/LL1_parser.cpp:200-225 | A run accepts only when the lookahead is `"$"` or the stack is empty. |
| LegacyTable.RunAcceptsOnEmptyStack | src/LL1_parser.cpp:199-200 | When no token is the literal `"$"`, a run accepts only on an empty stack. |
| LegacyTable.ExampleTable | src/LL1_parser.cpp:176-191 | S -> a b is LL(1), and its table is the single cell (S, a). |
| LegacyTable.TruncatedInputRejected | src/LL1_parser.cpp:200-222 | There, the input `a` is rejected, since `""` does not match `b`. |
| LegacyTable.TrailingInputAccepted | src/LL1_parser.cpp:200-225 | The input `a b b` is accepted with the extra `b` unread. |

## Left out

- **File reading and the grammar-file format.** This is `ReadFromFile` up to src/grammar.cpp:72 and `read_from_file` in src/LL1_parser.cpp, which match lines with `std::regex`. `LoadRules` takes their output, a map from antecedent to consequent strings, as input.
- **The regex lines' side effects on the symbol table** (terminal, axiom and EOL declarations). They are modelled only through `PutTerminal`, `SetEol` and `SetAxiom`.
- **All lexers** (Boost.Spirit, `std::regex`, flex with `dlopen`). They are replaced by a token sequence whose next token is `""` once exhausted.
- **Printing and debugging**: `Debug`/`debug`, `print_table`, `PrintTableUsingTabulate`, `print_stack_trace`, `print_symbol_hist` and `print_director_symbols`.
- **Command-line handling and `main`.**
- **The error classes.** Each is kept as the message it carries, as a constructor of `Errors.Error`. The class hierarchy and `what()` are not modelled.
- **The int-keyed, declaration-only headers** src/grammar.hpp, src/ll1_parser.hpp and src/symbol_table.hpp. They have no implementation to model.
- **Hash-container iteration order.** It is a nondeterministic choice. So which antecedent's column the earlier builder fails in first is not fixed. Within a column, productions go in list order, and the contracts name the first bad one.
- **`HasValue` and `In`** are membership predicates with no contract of their own. They are used by the splitters and by `IsTerminal`.
- **`ComputeFollowSets` and `UpdateFollow` have no body in the source.** They are modelled from their documentation (include/ll1_parser.hpp:186-233) as passes over every occurrence of a non-terminal in every production, repeated until nothing changes.
- **Parser state.** `first` can insert empty FIRST sets through `operator[]`. The model reads a missing set as empty instead. The parser also keeps its symbol table as a snapshot, since nothing in it changes the table.
- **Termination of `parse`, the earlier `header` and the earlier parse loop** is not modelled. Fuel bounds the number of turns, and the proofs say nothing beyond it.
- **Integer widths.** Token ids and indices are unbounded integers. The C++ `unsigned long` counter cannot overflow in any realistic run.
- **The legacy walk methods** (LegacyParser.NextUtil, NextRules, NextRule, NextOccurrence, Next, DirectorSymbol, LegacyTable.BuildColumn, CreateLL1Table, ParseWith, LL1Parse) state what their lookups do to the symbol table only relative to the table the whole computation started from. They do not state it relative to the table at the call. Only `ComputeHeader` states both.
- LegacyParser.NextUtil: on failure, the contract says only that the failing outcome is that of the `header` of a symbol the walk needed. It does not say which one is met first, because that depends on hash order.
- LegacyTable.CreateLL1Table: on `Conflict` and `BuildFailed`, the contract names the first bad production of some antecedent. It does not name the antecedent met first in hash order.
