# LR(1) parser generator — a Dafny model

This project models the core of `com.silverdirk.parser`, a Java library that
builds LR(1) parse tables from a grammar and parses token streams with them:

- the grammar side: rules (`ParseRule`) with their reduction handlers
  (`ReduceMethod`), symbol priorities and associativities (`Parser.Priorities`),
  and the symbol catalogue `TableBuilder` makes of a rule list;
- table generation (`TableBuilder`): FIRST sets, LR(1) closure and goto,
  the canonical collection of item sets, and the table-filling step that
  resolves shift/reduce and reduce/reduce clashes by priority and
  associativity, reporting the clashes it cannot resolve;
- the stored table (`LR1_Table`): merging action and goto maps into rows,
  the symbol list and its reverse mapping, and the integer serialisation of
  rows and actions, with its read-back;
- the driver (`Parser.parse`) over an array token source (`ArrayTokenSource`),
  and the exception it raises (`ParseException`, `GenericParseNode`);
- the scanner (`Scanner`, `ScanRule`): the loop of `next`, the scan-rule
  actions, state switches and line counting;
- the two regular-expression front ends: `RegexSpec` (a pattern tree with
  character sets held as sorted code-unit ranges) and `RegexParser` (an NFA
  fragment tree whose nodes are numbered and wired by `getExitPeer`), plus the
  group-marker encoding of `RegexCompiler`.

Every operation is a pure function over immutable datatypes. Java exceptions
become the error side of a `Result` (or a `Fail`/`Crash` outcome for the
pattern parsers). Hash-map iteration orders, which the Java code depends on
for the order of states and serialised entries, become explicit order
parameters. Java's 32-bit `int` arithmetic is written out (`CharSets.Int32`)
where it wraps. Modules follow the Java classes:

| module | Java |
|---|---|
| `Symbols`, `Actions` | `Nonterminal`, terminals, `LR1_Table.ParseAction` |
| `ParseRules`, `ReduceMethods` | `ParseRule`, `ReduceMethod` |
| `ParseNodes`, `ParseExceptions` | `SourcePos`, `GenericParseNode`, `ParseException` |
| `Priorities` | `Parser.Priorities` |
| `Catalog`, `FirstSets`, `LR1Items`, `Canonical`, `Tables` | `TableBuilder` |
| `LR1Tables` | `LR1_Table` |
| `Parsing`, `TokenSources` | `Parser`, `ArrayTokenSource` |
| `ScanRules`, `Scanning` | `ScanRule`, `Scanner` |
| `CharSets`, `RegexSpecs` | `RegexSpec` |
| `RegexParsers`, `RegexGraphs`, `RegexMatches` | `RegexParser`, `RegexCompiler.GroupOps` |
| `Text`, `Seqs`, `Wrappers` | decimal rendering, joins, list helpers |

## Model

| member | source | states |
|---|---|---|
| Symbols.ClassOf | src/com/silverdirk/parser/Parser.java:69-71 | the fallback key of a token is a class object: a literal's declared class, EOF's class, or `Class` for a class object itself |
| Symbols.TerminalString | src/com/silverdirk/parser/TokenSource.java:18-20 | EOF displays as `/eof/`, a token as its text and a class object as `class` and its name |
| Symbols.NontermString | src/com/silverdirk/parser/Nonterminal.java:30-32 | a nonterminal displays as exactly its name between `<` and `>` |
| Actions.Encode | src/com/silverdirk/parser/LR1_Table.java:340-347 | an action is written as its type code, followed by its operand only for SHIFT and REDUCE |
| Actions.Decode | src/com/silverdirk/parser/LR1_Table.java:355-362 | reading an action fails exactly when the buffer ends before the code or before a SHIFT/REDUCE operand; otherwise it consumes one or two ints and yields a well-typed action of the code read |
| Actions.DecodeEncode | src/com/silverdirk/parser/LR1_Table.java:340-362 | an encoded action reads back from any position in any surrounding buffer, consuming exactly its own encoding |
| Actions.StoredKeeps | src/com/silverdirk/parser/LR1_Table.java:355-362 | every action but ACCEPT reads back unchanged; ACCEPT reads back as ACCEPT with rule index 0, because no operand is stored for it |
| ReduceMethods.PassthroughConstants | src/com/silverdirk/parser/ReduceMethod.java:120-122 | the first-element passthrough yields the first value (null when there is none) and the all-elements passthrough yields the whole array |
| ParseNodes.MakeNode | src/com/silverdirk/parser/GenericParseNode.java:17-21 | a node keeps the type, span and components it was built from |
| ParseNodes.NodeStringJoins | src/com/silverdirk/parser/GenericParseNode.java:23-31 | a node displays as its type, then its components joined by ", " in parentheses, with no trailing separator; no or null components give empty parentheses |
| ParseExceptions.Make | src/com/silverdirk/parser/ParseException.java:13-17 | the exception keeps message, source and location and has no expected list |
| ParseExceptions.MakeExpecting | src/com/silverdirk/parser/ParseException.java:18-22 | an expected list is kept exactly when it is non-empty |
| ParseExceptions.ExpectationStringJoins | src/com/silverdirk/parser/ParseException.java:36-46 | the expectation text is the expected symbols joined by single spaces, and empty when there are none |
| ParseExceptions.ParserMessage | src/com/silverdirk/parser/ParseException.java:32-34 | the parser message starts with the message and ends with the expectation text |
| ParseExceptions.MakeExpectingString | src/com/silverdirk/parser/ParseException.java:18-46 | whatever list is passed, the expectation text of the exception is that list joined by spaces (an empty list giving the empty text) |
| ParseRules.MakeRule | src/com/silverdirk/parser/ParseRule.java:34-38 | a rule keeps its target, symbols and handler |
| ParseRules.MakeGenericRule | src/com/silverdirk/parser/ParseRule.java:47-49 | the two-argument rule is the three-argument rule with the generic handler |
| ParseRules.GetSymbolsRoundTrip | src/com/silverdirk/parser/ParseRule.java:63-65 | a rule reads back exactly the symbols it was constructed with |
| ParseRules.RuleStringSnoc | src/com/silverdirk/parser/ParseRule.java:75-84 | a rule displays as its target and `::=`, extended by one part per symbol in order |
| ParseRules.PassthroughReduce | src/com/silverdirk/parser/ParseRule.java:99-106 | a negative index passes the whole array, an index in range passes that value, an index past the end passes null |
| ParseRules.ChooseOne | src/com/silverdirk/parser/ParseRule.java:131-144 | a non-negative index picks one value (null past the end), EMPTY picks null, REMAINDER in first place picks every value |
| ParseRules.ElemChooseReduce | src/com/silverdirk/parser/ParseRule.java:129-147 | the node is built exactly when every index choice succeeds, with the rule's target, the span, and the chosen values |
| ParseRules.ChooseOneAsWritten | src/com/silverdirk/parser/ParseRule.java:131-144 | as written, an index equal to the number of symbols fails, one beyond it picks null, one within picks that value, and every index other than the length picks what the corrected choice picks |
| ParseRules.ChooseFromAgree | src/com/silverdirk/parser/ParseRule.java:129-147 | the written and the corrected guard differ only on an index equal to the number of symbols, and wherever the written choice succeeds it chose the same values |
| ParseRules.ElemChooseReduceAsWritten | src/com/silverdirk/parser/ParseRule.java:129-147 | as written, a rule whose indices include the number of symbols fails, and a success builds the same node as the corrected handler |
| ParseRules.ChooseIndices | src/com/silverdirk/parser/ParseRule.java:129-147 | with only non-negative indices the components are, position by position, the indexed value or null when the index is past the end |
| ParseRules.ElemChooseIndexAtLength | src/com/silverdirk/parser/ParseRule.java:140-143 | an index equal to the number of symbols fails as written and yields null once corrected |
| ParseRules.ListBuildReduce | src/com/silverdirk/parser/ParseRule.java:157-177 | the list handler fails exactly on a negative in-range index; otherwise the value at the list index is reused if it is a list, wrapped in a fresh list if not, or replaced by an empty list when missing, and the item is appended when its index is after the list's, prepended when at or before it, and skipped when `null` or missing |
| ParseRules.LeftListCollects | src/com/silverdirk/parser/ParseRule.java:157-177 | reducing a left-recursive list rule item by item collects the first element and then every item, in order |
| ParseRules.RightListCollects | src/com/silverdirk/parser/ParseRule.java:157-177 | reducing a right-recursive list rule collects the items in order followed by the last element |
| ParseRules.Reduce | src/com/silverdirk/parser/ParseRule.java:86-147 | the generic handler builds a node of the rule's target over the popped values and span; the passthrough handler passes its chosen value; the element-choose handler runs with the written `idx > length` guard, so it fails whenever an index equals the number of symbols, succeeds exactly when every written choice does, and then builds the same node of the target over the span as the corrected handler; the list-building handler gives the list `ListBuildReduce` states |
| Priorities.AssocCode | src/com/silverdirk/parser/Parser.java:117-121 | every associativity has a code between LEFT and NONASSOC |
| Priorities.AssocOf | src/com/silverdirk/parser/Parser.java:117-121 | a code names an associativity exactly when it lies between LEFT and NONASSOC, and that associativity has the code |
| Priorities.ClassKey | src/com/silverdirk/parser/Parser.java:142-148 | every terminal key has a class key to fall back on; nonterminals have none |
| Priorities.GetInt | src/com/silverdirk/parser/Parser.java:142-148 | a key's own priority wins, else its class's, and a result exists only when one of them is stored |
| Priorities.Get | src/com/silverdirk/parser/Parser.java:150-154 | the priority is the stored one or else 0, never negative in a valid store |
| Priorities.SetPriVal | src/com/silverdirk/parser/Parser.java:174-179 | storing a priority replaces the key's entry, and storing 0 removes it; associativities are untouched |
| Priorities.Set | src/com/silverdirk/parser/Parser.java:156-160 | setting a priority is rejected exactly when the value is negative |
| Priorities.SetThenGet | src/com/silverdirk/parser/Parser.java:150-179 | a positive priority reads back, 0 removes the entry, every other key keeps its entry, and the store stays valid |
| Priorities.GetAssociativity | src/com/silverdirk/parser/Parser.java:181-189 | levels below 1 are rejected; an unset level is left-associative |
| Priorities.SetAssociativity | src/com/silverdirk/parser/Parser.java:191-197 | setting an associativity is accepted exactly for a level of at least 1 and a valid code, and leaves priorities alone |
| Priorities.SetAssociativityThenGet | src/com/silverdirk/parser/Parser.java:181-197 | a stored associativity reads back, other levels keep theirs, and the store stays valid |
| Priorities.SetAll | src/com/silverdirk/parser/Parser.java:162-172 | setting the priority of a level's symbols leaves associativities unchanged |
| Priorities.SetAllEffect | src/com/silverdirk/parser/Parser.java:162-172 | every listed key gets the value and every unlisted key keeps its entry |
| Priorities.SetLevel | src/com/silverdirk/parser/Parser.java:162-172 | a level is accepted exactly for a value of at least 1 and a valid code, and its associativity reads back |
| Priorities.SetLevelPriorities | src/com/silverdirk/parser/Parser.java:162-172 | every symbol of an accepted level reads back the level's value, and the store stays valid |
| Priorities.FromLevels | src/com/silverdirk/parser/Parser.java:137-140 | building from levels succeeds exactly when every level has a value of at least 1 and a valid code, and gives a valid store |
| Priorities.FromLevelsOnto | src/com/silverdirk/parser/Parser.java:137-140 | applying levels in turn to a valid store succeeds exactly when every level is acceptable, and keeps the store valid |
| Catalog.CatalogAllNonterms | src/com/silverdirk/parser/TableBuilder.java:59-69 | cataloguing symbols appends each new nonterminal, in order of first occurrence |
| Catalog.CatalogAllTerms | src/com/silverdirk/parser/TableBuilder.java:59-69 | cataloguing symbols appends each new terminal, in order of first occurrence |
| Catalog.CatalogAllProductions | src/com/silverdirk/parser/TableBuilder.java:59-69 | every catalogued nonterminal gets a production list, new ones empty, existing ones unchanged |
| Catalog.BuildUpToNonterms | src/com/silverdirk/parser/TableBuilder.java:42-57 | after any prefix of the rules, the nonterminals are those of the start symbol and the rules so far, without repeats, in order of first occurrence |
| Catalog.BuildUpToTerms | src/com/silverdirk/parser/TableBuilder.java:42-57 | after any prefix of the rules, the terminals are those of the rules so far, without repeats, in order of first occurrence |
| Catalog.BuildUpToProductions | src/com/silverdirk/parser/TableBuilder.java:42-57 | after any prefix of the rules, each catalogued nonterminal's productions are the indices of the rules so far that target it, ascending |
| Catalog.BuildCatalog | src/com/silverdirk/parser/TableBuilder.java:42-69 | the catalogue lists each symbol of the start symbol and the rules exactly once, and each nonterminal's productions are the rules that target it, in rule order |
| Catalog.CatalogOrder | src/com/silverdirk/parser/TableBuilder.java:59-69 | catalogued symbols appear in the order of their first occurrence in the rules |
| FirstSets.FirstOf | src/com/silverdirk/parser/TableBuilder.java:87-92 | a terminal's FIRST set is itself; a nonterminal's is what the relation records for it |
| FirstSets.SymbolsPass | src/com/silverdirk/parser/TableBuilder.java:104-116 | a pass over one rule's body only adds, reports a change exactly when it added something, and stays within the finite universe |
| FirstSets.RulesPass | src/com/silverdirk/parser/TableBuilder.java:101-117 | a pass over the rules only adds, reports a change exactly when it added something, and stays within the universe |
| FirstSets.PassShrinks | src/com/silverdirk/parser/TableBuilder.java:98-118 | a pass that changes something leaves strictly less of the universe to add, so the repeat loop ends |
| FirstSets.BuildLoop | src/com/silverdirk/parser/TableBuilder.java:98-118 | repeating passes only grows the relation and stays within the universe |
| FirstSets.BuildFirstSets | src/com/silverdirk/parser/TableBuilder.java:94-119 | the FIRST sets start empty and stay within the universe |
| FirstSets.SymbolsPassStable | src/com/silverdirk/parser/TableBuilder.java:104-116 | a pass over a body that adds nothing shows the rule satisfied from that position on |
| FirstSets.RulesPassStable | src/com/silverdirk/parser/TableBuilder.java:101-117 | a pass that adds nothing shows every remaining rule satisfied |
| FirstSets.BuildLoopClosed | src/com/silverdirk/parser/TableBuilder.java:98-118 | when the loop stops, every rule's FIRST contribution is present |
| FirstSets.FirstSetsClosed | src/com/silverdirk/parser/TableBuilder.java:94-119 | the computed FIRST sets satisfy every rule, and one more pass would change nothing |
| FirstSets.ClosedIsStable | src/com/silverdirk/parser/TableBuilder.java:98-118 | a relation satisfying every rule is a fixed point of a pass |
| FirstSets.SymbolsPassLeast | src/com/silverdirk/parser/TableBuilder.java:104-116 | a pass over a body never adds beyond any relation that satisfies the rule |
| FirstSets.RulesPassLeast | src/com/silverdirk/parser/TableBuilder.java:101-117 | a pass never adds beyond any relation that satisfies every rule |
| FirstSets.BuildLoopLeast | src/com/silverdirk/parser/TableBuilder.java:98-118 | the loop never adds beyond any relation that satisfies every rule |
| FirstSets.FirstSetsLeast | src/com/silverdirk/parser/TableBuilder.java:94-119 | the computed FIRST sets are contained in every relation satisfying the rules: they are the least solution |
| FirstSets.FirstSetsJustified | src/com/silverdirk/parser/TableBuilder.java:94-119 | a nonterminal has an element in its FIRST set exactly when some rule for it justifies that element |
| FirstSets.NullableIff | src/com/silverdirk/parser/TableBuilder.java:104-116 | a nonterminal derives the empty string exactly when some rule for it has an all-nullable body |
| LR1Items.SuffixOptions | src/com/silverdirk/parser/TableBuilder.java:219-226 | the lookaheads after a position are the terminals that can start the rest of the body, plus the outer lookaheads when the rest can vanish |
| LR1Items.AddOptions | src/com/silverdirk/parser/TableBuilder.java:230-243 | each production of the nonterminal gains the options, and is queued when it gained something and can expand further |
| LR1Items.BuildRuleOptions | src/com/silverdirk/parser/TableBuilder.java:217-244 | after expanding the nonterminal at a position, every production of it carries all lookaheads that can follow that position |
| LR1Items.AddOptionsInv | src/com/silverdirk/parser/TableBuilder.java:230-243 | adding options keeps the gathered lookaheads within the grammar's terminals and the worklist within the rules |
| LR1Items.AddOptionsPending | src/com/silverdirk/parser/TableBuilder.java:230-243 | adding options keeps every gathered rule either queued or already honoured |
| LR1Items.AddOptionsLeast | src/com/silverdirk/parser/TableBuilder.java:230-243 | adding options never goes beyond any assignment that already holds them |
| LR1Items.SeedPhase | src/com/silverdirk/parser/TableBuilder.java:187-195 | the seed loop of `closure` only adds lookaheads and keeps the invariant |
| LR1Items.SeedPhaseClosed | src/com/silverdirk/parser/TableBuilder.java:187-195 | after the seed loop every seed item's expansion is honoured |
| LR1Items.SeedPhasePending | src/com/silverdirk/parser/TableBuilder.java:187-195 | the seed loop keeps every gathered rule queued or honoured |
| LR1Items.SeedPhaseLeast | src/com/silverdirk/parser/TableBuilder.java:187-195 | the seed loop never goes beyond any assignment that honours the seeds |
| LR1Items.Drain | src/com/silverdirk/parser/TableBuilder.java:196-199 | draining the worklist only adds lookaheads and ends with the worklist empty |
| LR1Items.DrainStep | src/com/silverdirk/parser/TableBuilder.java:196-199 | one worklist step keeps the invariant and lowers the count of missing lookaheads or else shortens the worklist |
| LR1Items.DrainClosed | src/com/silverdirk/parser/TableBuilder.java:196-199 | once the worklist is empty every gathered rule is honoured |
| LR1Items.DrainLeast | src/com/silverdirk/parser/TableBuilder.java:196-199 | draining never goes beyond any assignment closed under expansion |
| LR1Items.ClosureOptions | src/com/silverdirk/parser/TableBuilder.java:187-199 | the gathered lookaheads concern real rules and stay within the grammar's terminals |
| LR1Items.ClosureClosed | src/com/silverdirk/parser/TableBuilder.java:187-205 | the gathered lookaheads honour every seed item and every gathered rule |
| LR1Items.ClosureLeast | src/com/silverdirk/parser/TableBuilder.java:187-205 | the gathered lookaheads are the least assignment honouring the seeds and the rules |
| LR1Items.OptionItems | src/com/silverdirk/parser/TableBuilder.java:200-203 | one new item per gathered rule, with the dot at the start and the gathered lookahead set |
| LR1Items.Closure | src/com/silverdirk/parser/TableBuilder.java:187-205 | the closure holds the given items plus exactly one start item per gathered rule, without repeats |
| LR1Items.InitialState | src/com/silverdirk/parser/TableBuilder.java:127-135 | the first state is the closure of the start symbol's primer item |
| LR1Items.InitialStateStart | src/com/silverdirk/parser/TableBuilder.java:127-135 | every rule for the start symbol appears in the first state with EOF among its lookaheads |
| LR1Items.Advance | src/com/silverdirk/parser/TableBuilder.java:246-254 | the advanced items are exactly the items with the symbol after the dot, with the dot moved past it |
| LR1Items.Goto | src/com/silverdirk/parser/TableBuilder.java:246-256 | the next state is a set of valid items without repeats |
| LR1Items.GotoKernel | src/com/silverdirk/parser/TableBuilder.java:246-256 | the next state's items with the dot inside are exactly the advanced items, and its start items are exactly the closure's gathered ones |
| Canonical.AddPath | src/com/silverdirk/parser/TableBuilder.java:161-165 | a symbol's recorded path priority becomes the higher of the old and the new one; other symbols keep theirs |
| Canonical.Paths | src/com/silverdirk/parser/TableBuilder.java:139-146 | each symbol after a dot in the state has one path, carrying the highest priority of the rules offering it |
| Canonical.PathsStep | src/com/silverdirk/parser/TableBuilder.java:139-146 | one more item raises its symbol's path to its rule's priority, and a completed item adds no path |
| Canonical.Completed | src/com/silverdirk/parser/TableBuilder.java:141-145 | the reductions of a state are exactly its items with the dot at the end |
| Canonical.FindState | src/com/silverdirk/parser/TableBuilder.java:150-155 | a state is found exactly when an existing state has the same item set |
| Canonical.LinkOne | src/com/silverdirk/parser/TableBuilder.java:147-157 | following a path reuses the state with the same items or appends a new one, and records the transition to it |
| Canonical.Link | src/com/silverdirk/parser/TableBuilder.java:147-157 | every path of the state gets a transition, in path order, and existing states are kept |
| Canonical.AppendState | src/com/silverdirk/parser/TableBuilder.java:150-155 | appending an item set different from all existing ones keeps the states distinct and well formed |
| Canonical.StatesBound | src/com/silverdirk/parser/TableBuilder.java:127-159 | there can be no more states than sets of items, so the collection is finite |
| Canonical.Build | src/com/silverdirk/parser/TableBuilder.java:136-158 | visiting states until none is left only appends states, all well formed |
| Canonical.CanonicalCollection | src/com/silverdirk/parser/TableBuilder.java:127-159 | the collection starts with the initial state and its states are well formed |
| Canonical.VisitEdges | src/com/silverdirk/parser/TableBuilder.java:147-157 | every recorded transition goes to the goto of its source over its symbol |
| Canonical.VisitComplete | src/com/silverdirk/parser/TableBuilder.java:139-157 | every symbol after a dot in a visited state has a transition |
| Canonical.VisitDeterministic | src/com/silverdirk/parser/TableBuilder.java:147-157 | no state has two transitions over the same symbol |
| Canonical.VisitReductions | src/com/silverdirk/parser/TableBuilder.java:141-145 | the recorded reductions are exactly the completed items of the visited states |
| Canonical.VisitStep | src/com/silverdirk/parser/TableBuilder.java:136-158 | visiting one more state keeps all of the above |
| Canonical.BuildVisits | src/com/silverdirk/parser/TableBuilder.java:136-158 | when the loop ends every state has been visited |
| Canonical.CollectionProperties | src/com/silverdirk/parser/TableBuilder.java:127-159 | the states are distinct; each transition is a goto; each symbol after a dot has exactly one transition; the reductions are exactly the completed items |
| Tables.SetTableEntry | src/com/silverdirk/parser/TableBuilder.java:297-333 | an empty cell takes the offer; two shifts keep the shift at the higher priority; otherwise the higher priority wins, equal priorities follow the level's associativity, and an undecided clash keeps the old entry and is reported |
| Tables.Fold | src/com/silverdirk/parser/TableBuilder.java:297-333 | offering actions to a cell only adds reports, and fills the cell exactly when something was offered |
| Tables.FoldOffered | src/com/silverdirk/parser/TableBuilder.java:297-333 | a filled cell holds one of the actions offered, or the NONASSOC error |
| Tables.FoldMax | src/com/silverdirk/parser/TableBuilder.java:312-326 | with distinct priorities and at most one shift, the offer of highest priority wins, without a report |
| Tables.FoldOrderIndependent | src/com/silverdirk/parser/TableBuilder.java:297-333 | with distinct priorities and at most one shift, the order of the offers does not matter |
| Tables.FoldDefaultConflict | src/com/silverdirk/parser/TableBuilder.java:312-326 | two or more offers one of which has the default priority always cause a report |
| Tables.EmptyTables | src/com/silverdirk/parser/TableBuilder.java:258-272 | one empty action row and one empty goto row per state, with no conflicts |
| Tables.AddTransition | src/com/silverdirk/parser/TableBuilder.java:273-279 | adding a transition keeps one action row and one goto row per state |
| Tables.AddTransitions | src/com/silverdirk/parser/TableBuilder.java:273-279 | adding all transitions keeps one action row and one goto row per state |
| Tables.ReduceAction | src/com/silverdirk/parser/TableBuilder.java:280-289 | a completed rule reduces by its own index, and accepts exactly on EOF when it targets the start symbol |
| Tables.AddReduction | src/com/silverdirk/parser/TableBuilder.java:280-289 | adding a reduction leaves the goto rows alone |
| Tables.AddReductions | src/com/silverdirk/parser/TableBuilder.java:280-289 | the reduction loop leaves the gotos the transition loop made |
| Tables.BuildTables | src/com/silverdirk/parser/TableBuilder.java:258-295 | the tables have one action row and one goto row per state |
| Tables.TransitionStep | src/com/silverdirk/parser/TableBuilder.java:273-279 | adding one transition keeps every cell equal to its offers folded in order |
| Tables.TransitionsAgree | src/com/silverdirk/parser/TableBuilder.java:273-279 | after the transition loop every cell is its shift offers folded in order |
| Tables.ReductionStep | src/com/silverdirk/parser/TableBuilder.java:280-289 | adding one reduction keeps every cell equal to its offers folded in order |
| Tables.ReductionsAgree | src/com/silverdirk/parser/TableBuilder.java:273-289 | after both loops every cell is its shift offers and then its reduction offers, folded in order |
| Tables.GotoKeys | src/com/silverdirk/parser/TableBuilder.java:273-279 | a state has a goto entry for a nonterminal exactly when it has a transition over it |
| Tables.GotoValues | src/com/silverdirk/parser/TableBuilder.java:273-279 | each goto entry is the target of the transition over that nonterminal |
| Tables.Collect | src/com/silverdirk/parser/TableBuilder.java:35-40 | the collection's transitions are deterministic and complete, and its reductions are exactly the completed items |
| Tables.Generate | src/com/silverdirk/parser/TableBuilder.java:35-40 | generation gives one action row and one goto row per state of the collection |
| Tables.GenerateAgrees | src/com/silverdirk/parser/TableBuilder.java:35-40 | every cell of the generated tables is its offers folded in order |
| Tables.GenerateGotos | src/com/silverdirk/parser/TableBuilder.java:273-279 | the goto table holds exactly the nonterminal transitions of the collection |
| Tables.GenerateActions | src/com/silverdirk/parser/TableBuilder.java:258-295 | a cell is filled exactly when a terminal transition or a reduction offers to it; a shift comes from a transition, a reduce or accept from a completed item with that lookahead, accept exactly on EOF for the start symbol |
| Tables.CellActions | src/com/silverdirk/parser/TableBuilder.java:297-333 | the same, for the fold of any offers |
| Tables.CellFilled | src/com/silverdirk/parser/TableBuilder.java:297-333 | a cell is filled exactly when something is offered to it |
| Tables.CellSource | src/com/silverdirk/parser/TableBuilder.java:297-333 | the action in a filled cell was offered to it |
| Tables.GenerateResolved | src/com/silverdirk/parser/TableBuilder.java:297-333 | where the offers to a cell have distinct priorities the highest one is in the cell; when that holds everywhere nothing is reported |
| Tables.GenerateReportsDefault | src/com/silverdirk/parser/TableBuilder.java:312-326 | a cell with two or more offers, one at the default priority, makes generation report a conflict |
| LR1Tables.SymbolList | src/com/silverdirk/parser/LR1_Table.java:178-192 | the symbol list starts with EOF and holds every symbol of the rules exactly once |
| LR1Tables.SymbolListOrder | src/com/silverdirk/parser/LR1_Table.java:178-192 | the symbols are listed in order of first occurrence |
| LR1Tables.ReverseMapping | src/com/silverdirk/parser/LR1_Table.java:200-205 | the mapping covers exactly the listed symbols, maps each to a position holding it, and the last such position |
| LR1Tables.ReverseMappingInverse | src/com/silverdirk/parser/LR1_Table.java:200-205 | on a list without repeats the mapping undoes indexing |
| LR1Tables.EntryCodes | src/com/silverdirk/parser/LR1_Table.java:213-227 | an entry is written exactly when its symbol is numbered and goto entries go with nonterminals; it starts with the symbol's number |
| LR1Tables.SerializeRow | src/com/silverdirk/parser/LR1_Table.java:213-227 | a row is written exactly when every key is numbered and of the right kind, in at most three ints per entry |
| LR1Tables.Deserialize | src/com/silverdirk/parser/LR1_Table.java:235-249 | reading entries only adds entries for listed symbols and keeps the row well formed |
| LR1Tables.DeserializeRow | src/com/silverdirk/parser/LR1_Table.java:235-249 | a row read back is well formed and keyed by listed symbols |
| LR1Tables.DeserializeSerialized | src/com/silverdirk/parser/LR1_Table.java:213-249 | reading back the entries of a row in any key order adds exactly those entries as stored |
| LR1Tables.RowRoundTrip | src/com/silverdirk/parser/LR1_Table.java:213-249 | a serialised row reads back as the row, ACCEPT entries losing their rule index |
| LR1Tables.CollectRows | src/com/silverdirk/parser/LR1_Table.java:120-127 | serialising the rows succeeds exactly when every row does, and otherwise reports the first row's failure |
| LR1Tables.RowCodes | src/com/silverdirk/parser/LR1_Table.java:120-127 | each row is written with the reverse mapping of the symbol list, in its own key order |
| LR1Tables.Load | src/com/silverdirk/parser/LR1_Table.java:91-97 | a loaded table keeps the rules and has one row read back per data row; it fails exactly when a row cannot be read |
| LR1Tables.SerializedRowsReadBack | src/com/silverdirk/parser/LR1_Table.java:120-127 | serialising a well-formed table succeeds and each data row reads back as the stored row |
| LR1Tables.TableRoundTrip | src/com/silverdirk/parser/LR1_Table.java:91-127 | loading the serialised table gives the table back as stored |
| LR1Tables.LoadRows | src/com/silverdirk/parser/LR1_Table.java:91-97 | data whose every row reads back loads as the table of those rows |
| LR1Tables.GetAction | src/com/silverdirk/parser/LR1_Table.java:135-137 | a token has an action exactly when its cell is filled, and it is that cell's action |
| LR1Tables.GetStateTrans | src/com/silverdirk/parser/LR1_Table.java:152-154 | a nonterminal has a goto exactly when its entry exists, and it is that entry |
| LR1Tables.OptionsAreTerminals | src/com/silverdirk/parser/LR1_Table.java:161-169 | the options of a state are exactly its terminal keys, each once |
| LR1Tables.OptionsOf | src/com/silverdirk/parser/LR1_Table.java:161-169 | the options are the terminals among the listed keys, each once |
| LR1Tables.MergeRow | src/com/silverdirk/parser/LR1_Table.java:62-66 | the row holds exactly the state's actions under terminals and its gotos under nonterminals |
| LR1Tables.MergeTables | src/com/silverdirk/parser/LR1_Table.java:62-66 | every state's actions and gotos are merged into its row |
| LR1Tables.FromGrammar | src/com/silverdirk/parser/LR1_Table.java:50-67 | building from a grammar fails exactly when generation reports conflicts, and otherwise each row holds that state's actions and gotos |
| LR1Tables.FromGrammarOk | src/com/silverdirk/parser/LR1_Table.java:50-67 | a table built from a grammar holds only well-typed actions |
| TokenSources.Make | src/com/silverdirk/parser/ArrayTokenSource.java:18-22 | the cursor starts at the first token and the tokens, locations and context are kept |
| TokenSources.CurToken | src/com/silverdirk/parser/ArrayTokenSource.java:32-39 | the token under the cursor, EOF one past the end, and an error further on |
| TokenSources.CurTokenPos | src/com/silverdirk/parser/ArrayTokenSource.java:41-50 | without locations a default span; with them the token's span, null at the end, and an error when the locations run out |
| TokenSources.Next | src/com/silverdirk/parser/ArrayTokenSource.java:52-54 | the cursor moves on by one and nothing else changes |
| TokenSources.Rewind | src/com/silverdirk/parser/ArrayTokenSource.java:28-30 | the cursor returns to the first token and nothing else changes |
| TokenSources.AdvanceCursor | src/com/silverdirk/parser/ArrayTokenSource.java:52-54 | k calls of `next` move the cursor k places |
| TokenSources.Replay | src/com/silverdirk/parser/ArrayTokenSource.java:28-39 | after a rewind the tokens replay from the start, whatever was read before |
| TokenSources.ContextKept | src/com/silverdirk/parser/ArrayTokenSource.java:24-26 | the context string is the one given to the constructor, however the cursor moves |
| Parsing.MakeParser | src/com/silverdirk/parser/Parser.java:19-51 | building a parser fails exactly when generation reports conflicts, and otherwise keeps the generated actions and gotos; the parser is a valid input to `Parse` exactly when each key order lists its action row's keys once each, as iterating the row's hash map does |
| Parsing.MakeParserRuns | src/com/silverdirk/parser/Parser.java:39-51 | every grammar without conflicts yields, for some iteration order of the rows, a parser that `Parse` accepts |
| Parsing.Lookup | src/com/silverdirk/parser/Parser.java:69-71 | a token's own cell is used, and only without one the cell of its class |
| Parsing.PopData | src/com/silverdirk/parser/Parser.java:85-95 | the values popped for a rule are the top n stack values, bottom first |
| Parsing.PopRule | src/com/silverdirk/parser/Parser.java:83-95 | popping a rule's symbols gives the span from the first to the last popped position and leaves the stack below; it fails when a needed position is missing |
| Parsing.ReduceStep | src/com/silverdirk/parser/Parser.java:80-105 | a reduction accepts only when accepting would leave the bare bottom entry, and otherwise pushes the goto of the uncovered state for the rule's target with the popped span; the value is a node over the popped values in debug mode and otherwise what the rule's handler returns, a handler failure stopping the parse |
| Parsing.Step1 | src/com/silverdirk/parser/Parser.java:67-110 | a shift pushes the token and the next state and advances the input; a reduce keeps the input; a rejection carries the source's context and the token's span, and lists the state's terminals as expected only when no action was found, never for NONASSOC |
| Parsing.LoopSettled | src/com/silverdirk/parser/Parser.java:66-111 | once the loop has ended, more passes change nothing |
| Parsing.RunSettled | src/com/silverdirk/parser/Parser.java:66-111 | once parsing has ended, more passes change nothing |
| Parsing.RunKeeps | src/com/silverdirk/parser/Parser.java:66-111 | parsing never empties the stack, never moves the input back and changes nothing else in the token source |
| Parsing.Loop | src/com/silverdirk/parser/Parser.java:66-111 | the loop stops at the first pass that does not continue, and reports "still running" when the fuel runs out |
| Parsing.LoopSplit | src/com/silverdirk/parser/Parser.java:66-111 | running a passes and then b more is running a + b passes |
| Parsing.Run | src/com/silverdirk/parser/Parser.java:66-111 | each unit of fuel is one pass of the parse loop, stopping at the first pass that accepts, rejects or fails |
| Parsing.Parse | src/com/silverdirk/parser/Parser.java:61-66 | parsing starts from a stack holding only state 0 with no value and no span, and while it runs the stack is never empty and the input only moves forward over the same tokens |
| ScanRules.MakeRule | src/com/silverdirk/parser/ScanRule.java:42-48 | a rule is made exactly when its pattern is non-empty, keeping token and state switch |
| ScanRules.MakeMatchRule | src/com/silverdirk/parser/ScanRule.java:50-56 | the one-argument rule emits the match and switches no state |
| ScanRules.OnMatch | src/com/silverdirk/parser/ScanRule.java:85-89 | a matching rule emits nothing, its token or the matched text, and switches state exactly when it has a state switch |
| ScanRules.Escape | src/com/silverdirk/parser/ScanRule.java:37-40 | escaping never shortens and leaves text without special characters unchanged |
| ScanRules.EscapeRoundTrip | src/com/silverdirk/parser/ScanRule.java:37-40 | removing the escapes gives the literal back |
| ScanRules.EscapeLength | src/com/silverdirk/parser/ScanRule.java:37-40 | escaping adds one backslash per special character |
| Scanning.CurTokenPos | src/com/silverdirk/parser/Scanner.java:51-53 | the span is on the current line, starts at the token's column and is as wide as the token |
| Scanning.GetContext | src/com/silverdirk/parser/Scanner.java:55-57 | the context is the text from the line start up to 20 past the position, clipped to the input |
| Scanning.StateTransTo | src/com/silverdirk/parser/Scanner.java:147-151 | switching state succeeds exactly for an existing state and changes only the state |
| Scanning.IncLine | src/com/silverdirk/parser/Scanner.java:164-167 | the line number goes up by one and the line starts at the position |
| Scanning.SetLine | src/com/silverdirk/parser/Scanner.java:176-179 | the line number is set and the line starts at the position |
| Scanning.SetStateData | src/com/silverdirk/parser/Scanner.java:132-134 | only the current state's slot changes, and it reads back |
| Scanning.InitAllStateData | src/com/silverdirk/parser/Scanner.java:106-110 | the data is replaced exactly when there is one slot per state |
| Scanning.ApplyOp | src/com/silverdirk/parser/Scanner.java:132-179 | an action never moves the position or changes the input or the states |
| Scanning.ApplyOps | src/com/silverdirk/parser/Scanner.java:132-179 | a sequence of actions never moves the position or changes the input or the states |
| Scanning.FirstHit | src/com/silverdirk/parser/Scanner.java:78-94 | the rule tried is the first one that did not fail to match |
| Scanning.Scan | src/com/silverdirk/parser/Scanner.java:66-98 | a scanned token is non-empty and ends past where it starts, except EOF, which is read at the end of input without moving |
| Scanning.Next | src/com/silverdirk/parser/Scanner.java:66-98 | `next` reads one token that is not "emit nothing", keeps the input, ends at or past where it starts, and at the end of input reads EOF without moving |
| Scanning.MakeScanner | src/com/silverdirk/parser/Scanner.java:40-45 | a new scanner has one data slot per state over the given input |
| Scanning.EofForever | src/com/silverdirk/parser/Scanner.java:69-73 | at the end of input `next` keeps returning EOF without moving |
| Scanning.FirstMatchWins | src/com/silverdirk/parser/Scanner.java:78-94 | the first rule that matches a non-empty token decides the token and the new position |
| Scanning.NoRuleFails | src/com/silverdirk/parser/Scanner.java:95-96 | when no rule matches, scanning fails with the state's name, at the current position |
| Scanning.EmptyMatchFatal | src/com/silverdirk/parser/Scanner.java:87-88 | a rule matching the empty string is a fatal error in the specification |
| Text.NatStringRoundTrip | src/com/silverdirk/parser/SourcePos.java:26-28 | a number rendered in decimal reads back as the number |
| CharSets.PackInjective | src/com/silverdirk/parser/RegexSpec.java:201-209 | packing two code units into one int loses nothing: equal packs mean equal ranges |
| CharSets.PairRanges | src/com/silverdirk/parser/RegexSpec.java:201-209 | each pair of code units is one range |
| CharSets.SingleRanges | src/com/silverdirk/parser/RegexSpec.java:201-209 | each single code unit is a one-element range |
| CharSets.SortByStart | src/com/silverdirk/parser/RegexSpec.java:271-289 | the ranges are sorted by start, with the same elements |
| CharSets.MergeInto | src/com/silverdirk/parser/RegexSpec.java:247-268 | merging sorted ranges gives a normal form containing exactly the same code units |
| CharSets.Normalize | src/com/silverdirk/parser/RegexSpec.java:247-268 | the result is in normal form (sorted, disjoint, non-adjacent), contains the same code units, and is no longer |
| CharSets.MakeCharSet | src/com/silverdirk/parser/RegexSpec.java:201-209 | a set is made exactly when it gets at least one range, and contains exactly the pairs' and singles' code units |
| CharSets.Equals | src/com/silverdirk/parser/RegexSpec.java:226-235 | two sets are equal exactly when their range lists are |
| CharSets.CanonicalUnique | src/com/silverdirk/parser/RegexSpec.java:226-235 | two normal forms with the same code units are the same list, so comparing lists compares sets |
| CharSets.NormalizeOrderFree | src/com/silverdirk/parser/RegexSpec.java:247-268 | normalising lists with the same code units gives the same list |
| CharSets.Lead | src/com/silverdirk/parser/RegexSpec.java:215-217 | the gap before the first range is everything below its start |
| CharSets.Tail | src/com/silverdirk/parser/RegexSpec.java:220-222 | the gap after the last range is everything above its end |
| CharSets.Mid | src/com/silverdirk/parser/RegexSpec.java:218-219 | the gaps between neighbouring ranges |
| CharSets.InvertAsWritten | src/com/silverdirk/parser/RegexSpec.java:211-224 | inverting fails exactly on the empty set, and otherwise is the complement |
| CharSets.InvertComplement | src/com/silverdirk/parser/RegexSpec.java:211-224 | the inverse is in normal form and holds exactly the code units the set lacks |
| CharSets.InvertTwice | src/com/silverdirk/parser/RegexSpec.java:211-224 | inverting twice gives the set back |
| CharSets.InvertAllTwiceThrows | src/com/silverdirk/parser/RegexSpec.java:211-214 | inverting the full set gives the empty set, and inverting that fails |
| CharSets.InvertBcd | src/com/silverdirk/parser/RegexSpec.java:211-224 | `[^bcd]` is everything below `b` and everything above `d` |
| CharSets.Pivot | src/com/silverdirk/parser/RegexSpec.java:280 | the pivot lies between the two keys |
| CharSets.PivotAsWritten | src/com/silverdirk/parser/RegexSpec.java:280 | the written pivot is an int, and equals the true midpoint whenever the sum of the keys does not overflow |
| CharSets.ScanDown | src/com/silverdirk/parser/RegexSpec.java:283 | the downward scan stops at the nearest key not above the pivot, and runs off the start exactly when every key is above it |
| CharSets.HangulPivotThrows | src/com/silverdirk/parser/RegexSpec.java:280-283 | three Hangul syllables make the wrapped pivot negative and the scan run off the array |
| CharSets.PivotScanInBounds | src/com/silverdirk/parser/RegexSpec.java:279-283 | with an unwrapped pivot the scan stops within the partition |
| RegexSpecs.Combine | src/com/silverdirk/parser/RegexSpec.java:167-173 | a `?` after a star or plus makes it non-greedy, and otherwise wraps the repetition |
| RegexSpecs.MakeRepetition | src/com/silverdirk/parser/RegexSpec.java:91-101 | a repetition needs a preceding element and replaces only the last one |
| RegexSpecs.DigitLoop | src/com/silverdirk/parser/RegexSpec.java:143-147 | the digit loop reads the digits up to the `}` and their value, positive and below the int limit |
| RegexSpecs.ParseGroupCount | src/com/silverdirk/parser/RegexSpec.java:140-153 | a count is the value of the digits before the `}`, positive and below the int limit |
| RegexSpecs.GroupCountReads | src/com/silverdirk/parser/RegexSpec.java:140-153 | digits then `}` read as their value, for every value the overflow guard lets through |
| RegexSpecs.GroupCountLargest | src/com/silverdirk/parser/RegexSpec.java:140-153 | 2147483629, the largest count the guard accepts, is read exactly |
| RegexSpecs.GroupCount5120 | src/com/silverdirk/parser/RegexSpec.java:140-153 | leading zeros are read: `{005120}` counts 5120 |
| RegexSpecs.SetLoop | src/com/silverdirk/parser/RegexSpec.java:110-133 | the set loop stops just after the closing `]` and gathers well-formed pairs and singles |
| RegexSpecs.CharSetWith | src/com/silverdirk/parser/RegexSpec.java:103-138 | a set parsed with either sentinel ends at its `]` and is in normal form |
| RegexSpecs.SetOf | src/com/silverdirk/parser/RegexSpec.java:135-137 | the gathered set, inverted after `^`, holds exactly the right code units; an empty set fails |
| RegexSpecs.CharSetAsWritten | src/com/silverdirk/parser/RegexSpec.java:103-138 | a set parsed as written is in normal form (without the quicksort's wrap-around crash, see Left out) |
| RegexSpecs.ParseCharSet | src/com/silverdirk/parser/RegexSpec.java:103-138 | a set parsed with a sentinel outside the code units never crashes and ends at its `]` |
| RegexSpecs.PlainSetContents | src/com/silverdirk/parser/RegexSpec.java:103-138 | a set written as plain characters holds exactly those characters |
| RegexSpecs.SentinelDropsChar | src/com/silverdirk/parser/RegexSpec.java:105-131 | as written, U+1000 in a set is dropped |
| RegexSpecs.ParseExpr | src/com/silverdirk/parser/RegexSpec.java:57-90 | with either set sentinel, the written U+1000 or one outside the code units, a subexpression ends just after its `)`; with the outside sentinel it never crashes |
| RegexSpecs.ExprLoop | src/com/silverdirk/parser/RegexSpec.java:61-81 | with either set sentinel the element loop ends just after a `)`; with the outside sentinel it never crashes |
| RegexSpecs.Element | src/com/silverdirk/parser/RegexSpec.java:62-80 | with either set sentinel one element advances within the pattern; with the outside sentinel it never crashes |
| RegexSpecs.ParseAsWritten | src/com/silverdirk/parser/RegexSpec.java:48-54 | as written, with the U+1000 sentinel and the `pos < eofPos` end test, a parse may stop one character short of the end (without the quicksort's wrap-around crash, see Left out) |
| RegexSpecs.Parse | src/com/silverdirk/parser/RegexSpec.java:48-54 | a corrected parse never crashes and succeeds only when the pattern is consumed to the end; for a pattern without U+1000 the written parse never crashes, the corrected parse fails wherever the written one fails, and the two agree on every pattern the written parse consumes to the end |
| RegexSpecs.SentinelIrrelevant | src/com/silverdirk/parser/RegexSpec.java:105-131 | for a pattern without U+1000 the written and the corrected sentinel give the same parse |
| RegexSpecs.SentinelAloneCrashes | src/com/silverdirk/parser/RegexSpec.java:105-131 | as written `[` U+1000 `]` crashes: the set comes out empty |
| RegexSpecs.SentinelAloneCorrected | src/com/silverdirk/parser/RegexSpec.java:105-131 | with a sentinel outside the code units `[` U+1000 `]` is the set holding just U+1000 |
| RegexSpecs.TrailingParenAccepted | src/com/silverdirk/parser/RegexSpec.java:51 | as written `a)` parses as `a`; corrected it is rejected |
| RegexSpecs.LiteralPattern | src/com/silverdirk/parser/RegexSpec.java:57-90 | a pattern of plain characters parses as the sequence of those characters |
| RegexSpecs.NonGreedyStar | src/com/silverdirk/parser/RegexSpec.java:167-173 | `a*?` is a non-greedy star |
| RegexParsers.Escaped | src/com/silverdirk/parser/RegexParser.java:47-79 | escaping never shortens and leaves text without special characters unchanged |
| RegexParsers.EscapeString | src/com/silverdirk/parser/RegexParser.java:47-69 | the loop puts a backslash before every special character, as `Escaped` does |
| RegexParsers.ParseEscaped | src/com/silverdirk/parser/RegexParser.java:47-113 | an escaped literal parses as the chain of its characters |
| RegexParsers.MakeSequence | src/com/silverdirk/parser/RegexParser.java:117-121 | a sequence has the nodes and groups of its parts |
| RegexParsers.MakeRepetition | src/com/silverdirk/parser/RegexParser.java:123-135 | a repetition needs a preceding element, replaces only the last one and keeps its groups |
| RegexParsers.RepeatedGroups | src/com/silverdirk/parser/RegexParser.java:235-240 | a repeated element counts its groups once |
| RegexParsers.Finish | src/com/silverdirk/parser/RegexParser.java:107-112 | the result has the groups of all alternatives |
| RegexParsers.CountLoopAsWritten | src/com/silverdirk/parser/RegexParser.java:178-183 | as written the count loop ends at `}` with a positive int |
| RegexParsers.CountLoop | src/com/silverdirk/parser/RegexParser.java:178-183 | corrected, the count loop reads the digits and their exact value |
| RegexParsers.ParseGroupCountAsWritten | src/com/silverdirk/parser/RegexParser.java:175-189 | as written a count is a positive int |
| RegexParsers.ParseGroupCount | src/com/silverdirk/parser/RegexParser.java:175-189 | corrected, a count is the exact value of the digits, within the int range |
| RegexParsers.GroupCountReads | src/com/silverdirk/parser/RegexParser.java:175-189 | digits then `}` read as their value whenever it fits in an int |
| RegexParsers.AsWrittenWraps | src/com/silverdirk/parser/RegexParser.java:178-183 | as written `{10000000000}` counts 1410065408 |
| RegexParsers.SetLoop | src/com/silverdirk/parser/RegexParser.java:144-167 | the set loop stops just after the closing `]` |
| RegexParsers.ParseCharSet | src/com/silverdirk/parser/RegexParser.java:137-173 | a set ends at its `]` and holds only code units |
| RegexParsers.PlainSetContents | src/com/silverdirk/parser/RegexParser.java:137-173 | a set of plain characters holds exactly them, or exactly the rest after `^` |
| RegexParsers.ParseExpr | src/com/silverdirk/parser/RegexParser.java:82-113 | a subexpression ends just after its `)` and numbers its groups from the next free number |
| RegexParsers.ExprLoop | src/com/silverdirk/parser/RegexParser.java:86-106 | the loop ends just after a `)` and its groups are those of its alternatives and elements |
| RegexParsers.Element | src/com/silverdirk/parser/RegexParser.java:87-105 | with either count reader, the written 32-bit one or the exact one, one element advances and accounts for the groups it opens |
| RegexParsers.CountWith | src/com/silverdirk/parser/RegexParser.java:175-189 | the count reader chosen is the written or the exact one, and either reads a positive int up to a `}` |
| RegexParsers.LiteralElement | src/com/silverdirk/parser/RegexParser.java:70-103 | a character that `needEsc` passes stands for itself, and a backslash makes the next character stand for itself |
| RegexParsers.ParseAsWritten | src/com/silverdirk/parser/RegexParser.java:39-45 | as written, with 32-bit counts and the `pos < eofPos` end test, a parse may stop one character short of the end |
| RegexParsers.Parse | src/com/silverdirk/parser/RegexParser.java:39-45 | a corrected parse succeeds only when the pattern is consumed to the end; for a pattern without a run of ten digits the corrected parse fails wherever the written one fails, and the two agree on every pattern the written parse consumes to the end |
| RegexParsers.CountsIrrelevant | src/com/silverdirk/parser/RegexParser.java:175-189 | for a pattern without a run of ten digits the written and the exact count reader give the same parse |
| RegexParsers.CountReadersAgree | src/com/silverdirk/parser/RegexParser.java:175-189 | the two count readers agree on a count of fewer than ten digits |
| RegexParsers.ChainWiring | src/com/silverdirk/parser/RegexParser.java:316-356 | in a literal's graph node i reads character i and leads to node i + 1 |
| RegexGraphs.Locate | src/com/silverdirk/parser/RegexParser.java:358-366 | a node belongs to the last part whose offset does not exceed it |
| RegexGraphs.Offsets | src/com/silverdirk/parser/RegexParser.java:327-331 | one offset per part |
| RegexGraphs.BuildSequence | src/com/silverdirk/parser/RegexParser.java:322-332 | the constructor's loop computes each part's offset, the node total and the group total |
| RegexGraphs.SubgraphIdx | src/com/silverdirk/parser/RegexParser.java:358-366 | the search finds the part holding the node |
| RegexGraphs.ExitPeer | src/com/silverdirk/parser/RegexParser.java:196-443 | every exit leads to a node of the graph or to its end |
| RegexGraphs.RepeatPeer | src/com/silverdirk/parser/RegexParser.java:230-266 | exits of a counted repetition stay within its copies |
| RegexGraphs.LoopPeer | src/com/silverdirk/parser/RegexParser.java:288-299 | exits of a loop stay within the loop node and its body |
| RegexGraphs.SequencePeer | src/com/silverdirk/parser/RegexParser.java:316-367 | exits of a sequence stay within its parts |
| RegexGraphs.ChoicePeer | src/com/silverdirk/parser/RegexParser.java:382-387 | exits of a choice stay within its branching node and alternatives |
| RegexGraphs.GroupEndsMarked | src/com/silverdirk/parser/RegexCompiler.java:245-270 | with the compiler's encoding, a group's start is marked positive and its end negative, both decoding to its number |
| RegexGraphs.FirstGroupUnmarked | src/com/silverdirk/parser/RegexParser.java:435-442 | as written, both ends of group 0 have code 0, which means no group |
| RegexGraphs.NodesCoverGroups | src/com/silverdirk/parser/RegexParser.java:196-443 | `nodeCount` and `getGroupCount`: when no repetition is empty, every counted group has its own two nodes |
| RegexGraphs.PartsCoverGroups | src/com/silverdirk/parser/RegexParser.java:316-336 | the parts of a sequence have two nodes per counted group |
| RegexGraphs.GroupSumPart | src/com/silverdirk/parser/RegexParser.java:326-331 | the group total of a sequence counts each part's groups |
| RegexGraphs.GroupNodeShape | src/com/silverdirk/parser/RegexParser.java:196-443 | `getGroupCode`, `getExitCount` and `getTransitionChar`: a node that marks a group end has one lambda exit, and the graph counts a group |
| RegexGraphs.BranchNodeShape | src/com/silverdirk/parser/RegexParser.java:196-443 | a node with other than one exit, a loop node or a choice's branching node, moves on lambda edges only |
| RegexMatches.StarShape | src/com/silverdirk/parser/RegexParser.java:268-299 | the graph of `c*`: a branching node into the body or out, and the body reading `c` |
| RegexMatches.StarCorrected | src/com/silverdirk/parser/RegexParser.java:268-314 | wired as meant, `c*` matches any number of `c` |
| RegexMatches.StarOnlyReps | src/com/silverdirk/parser/RegexParser.java:268-314 | wired as meant, `c*` matches only strings of `c` |
| RegexMatches.StarAsWritten | src/com/silverdirk/parser/RegexParser.java:288-299 | as written, `c*` matches only the empty string and `c` |
| RegexMatches.StarRepeatLost | src/com/silverdirk/parser/RegexParser.java:288-299 | as written `cc` is not matched by `c*`; wired as meant it is |
| RegexMatches.PairAccepts | src/com/silverdirk/parser/RegexParser.java:369-396 | a two-way choice matches its second alternative, and its first alternative only when wired as meant (as written, only followed by the second) |
| RegexMatches.AltAsWritten | src/com/silverdirk/parser/RegexParser.java:382-387 | as written `a\|b` matches exactly `ab` and `b` |
| RegexMatches.AltCorrected | src/com/silverdirk/parser/RegexParser.java:382-387 | wired as meant `a\|b` matches exactly `a` and `b` |
| RegexMatches.OptAsWritten | src/com/silverdirk/parser/RegexParser.java:130-131 | as written `a?` matches exactly `a` |
| RegexMatches.OptCorrected | src/com/silverdirk/parser/RegexParser.java:130-131 | wired as meant `a?` matches exactly the empty string and `a` |
| RegexMatches.ParseStar | src/com/silverdirk/parser/RegexParser.java:90 | `c*` parses as a zero-allowed loop over `c` |
| RegexMatches.ParseAlt | src/com/silverdirk/parser/RegexParser.java:94 | `a\|b` parses as a choice between `a` and `b` |
| RegexMatches.ParseOpt | src/com/silverdirk/parser/RegexParser.java:92 | `a?` parses as a choice between an empty edge and `a` |
| RegexMatches.ParseFirstGroup | src/com/silverdirk/parser/RegexParser.java:88 | `(c)` is group 0, whose ends have code 0 as written and codes 1 and -1 corrected |
| RegexMatches.TrailingParen | src/com/silverdirk/parser/RegexParser.java:42 | as written `c)` parses as `c`; corrected it is rejected |

## Left out

- The demo, console and HTML programs, `AutoConstructor`, `Grammar` (a plain record of start symbol, rules and priorities, here `Catalog.Grammar`), `ScanRuleSet` and the Java test classes are not part of this model.
- Pattern matching in the scanner is done by `java.util.regex`. It is a parameter here: a `Matcher` function gives, per scan rule in order, either no match or the length matched and the rule's action.
- `RegexCompiler` beyond `GroupOps` is left out. Its NFA-to-DFA conversion is unfinished in the source; only the group-marker encoding, which the group-numbering finding needs, is modelled.
- `SetOfChar` is not part of this model. The `RegexParser` character sets are `set<int>` of UTF-16 code units, and its `invert` is the complement within 0..0xFFFF.
- `LR1_Table.getErrAction` always throws `UnsupportedOperationException` and is left out.
- Display-only code is left out: `toString` of rules, tables and actions, `toStringVerbose`, `intArraysToJava`, and the wording of conflict reports, which become structured `Conflict` values. The rule display is modelled symbol by symbol (`ParseRules.RuleStringSnoc`), not char by char.
- Hash codes and `HashMap` iteration order are not modelled. Where the Java order matters (paths of a state, keys of a row written out, options of a state) the order is an explicit parameter or list order.
- Null tokens and null symbols in rules are not modelled.
- The consistency checks on node and exit ids in the regex graph classes are replaced by requires clauses (`IsNode`, `ExitCount`). So is the integer overflow of `nodeCount` on huge repetition counts.
- Patterns, literals and scanner input holding surrogate code units (0xD800 to 0xDFFF) are not modelled: a Dafny `char` cannot hold them.
- Scanning.MakeScanner: requires at least one state name. With none, the Java constructor reads EOF from empty input and fails with an index error on any other input; neither case is modelled.
- `CharSets.MakeCharSet` requires its pairs to be ordered, in range code units. Both regex parsers only call it with such pairs.
- Exception messages are kept where tests could observe them (scanner errors, parse failure messages). The regex parsers report a failure kind plus position instead of the message text.
- `LR1Tables.Serialize` has no contract of its own. Its behaviour is stated through `LR1Tables.RowCodes`, `LR1Tables.CollectRows` and `LR1Tables.SerializedRowsReadBack`.
- `Parsing.RunKeeps`: the parse loop runs on a fuel bound (`Parsing.Run`), since the Java loop need not terminate on an arbitrary table. `LoopSettled` and `RunSettled` show that extra fuel never changes a finished run.
- `RegexMatches.StarCorrected`: matching over the NFA graph also runs on a fuel bound, since lambda cycles need not terminate.
- `Actions.StoredKeeps`: serialising an ACCEPT action drops its rule index, so ACCEPT reads back with rule 0. The round-trip lemmas state the table as stored (`StoredTable`), not the original.
- `Parser.java` uses its own `ParseAction` type and the three-argument `TableBuilder.generate`. `LR1_Table` passes a start-follow set that `TableBuilder` does not take. Here there is one action type, and generation always uses `{EOF}` as the start symbol's follow set, as the primer item of `buildCanonicalCollection` does.
- `CharSets.Normalize` sorts with a functional sort (`SortByStart`) rather than the in-place quicksort. Of the quicksort only the pivot and the downward scan are modelled, for the overflow finding.
- `Tables.Generate`: rules are values identified by their index in the rule list, not Java objects compared by identity. A rule object listed twice is one rule in Java: one item, one reduction, REDUCE by its last index, and no conflict. Here it counts as two rules, whose two reductions clash at the default priority and report a conflict. Two distinct but equal rule objects behave here as in Java.
- `LR1Tables.FromGrammar` and `Parsing.MakeParser`: for the same reason, a grammar listing one rule object twice fails with conflicts here but builds in Java.
- `ParseRules.ListBuildReduce`: Java adds the item to the `List` object it received, in place, so every other holder of that list sees the change too. Here values are immutable, and the handler returns a new list; in-place update and aliasing are not modelled.
- `RegexSpecs.ParseAsWritten` and `RegexSpecs.CharSetAsWritten`: a set is normalised with the functional sort, so the written parsers do not crash where the quicksort's pivot wraps. `[가나다]` (U+AC00, U+B098, U+B2E4) gives a set here, where the Java quicksort throws an index error. That crash is modelled only by `CharSets.HangulPivotThrows`.
- `CharSets.Invert` itself carries no contract. Its complement and round-trip properties are `InvertComplement` and `InvertTwice`.

## Findings

| source | as written | input that shows it | evidently intended | confidence | as-written member | corrected member |
|---|---|---|---|---|---|---|
| src/com/silverdirk/parser/RegexSpec.java:51 | the end test `pos < eofPos` accepts a parse that stopped at a `)` one character before the end | `a)` parses as `a` | a pattern with an unmatched `)` is rejected | not executed | RegexSpecs.TrailingParenAccepted | RegexSpecs.Parse |
| src/com/silverdirk/parser/RegexParser.java:42 | the same `pos < eofPos` end test | `c)` parses as `c` | an unmatched `)` is rejected | not executed | RegexMatches.TrailingParen | RegexParsers.Parse |
| src/com/silverdirk/parser/RegexSpec.java:105-131 | the "no pending character" sentinel is `0x1000`, a real code unit | `[aကb]` (U+1000 inside) loses U+1000 | a sentinel outside the code units | not executed | RegexSpecs.SentinelDropsChar | RegexSpecs.ParseCharSet |
| src/com/silverdirk/parser/RegexSpec.java:280-283 | the quicksort pivot adds two shifted keys in 32-bit `int`, which wraps | three single Hangul ranges U+AC00, U+B098, U+B2E4 make the pivot negative and the scan index run below 0 | the midpoint computed without overflow | not executed | CharSets.HangulPivotThrows | CharSets.PivotScanInBounds |
| src/com/silverdirk/parser/RegexSpec.java:211-214 | `invert` reads the first range of the set, so the empty set throws | inverting `.` (all code units) twice | inverting the empty set gives the full set | not executed | CharSets.InvertAllTwiceThrows | CharSets.InvertTwice |
| src/com/silverdirk/parser/ParseRule.java:140 | the element-choose handler tests `idx > length`, so `idx == length` indexes past the array | indices `[1]` on a one-symbol rule | `idx >= length` gives null | not executed | ParseRules.ElemChooseIndexAtLength | ParseRules.ElemChooseReduce |
| src/com/silverdirk/parser/RegexParser.java:178-182 | the count overflow check compares the new value with the old, which misses a wrap that stays above it | `{10000000000}` counts 1410065408 | counts beyond the int range are rejected | not executed | RegexParsers.AsWrittenWraps | RegexParsers.GroupCountReads |
| src/com/silverdirk/parser/RegexParser.java:288-299 | in a zero-allowed loop the body's end leads out of the loop, not back to the loop node | `c*` does not match `cc` | the body's end returns to the loop node | not executed | RegexMatches.StarRepeatLost | RegexMatches.StarCorrected |
| src/com/silverdirk/parser/RegexParser.java:382-387 | in a choice each alternative's end leads into the next alternative, not out of the choice | `a\|b` matches `ab` but not `a` | each alternative's end leaves the choice | not executed | RegexMatches.AltAsWritten | RegexMatches.AltCorrected |
| src/com/silverdirk/parser/RegexParser.java:382-387 | `?` builds a choice of an empty edge and the element, so with the wiring above the element is compulsory | `a?` does not match the empty string | `a?` matches nothing or `a` | not executed | RegexMatches.OptAsWritten | RegexMatches.OptCorrected |
| src/com/silverdirk/parser/RegexParser.java:435-442 | group start and end codes are `id` and `-id`, so both ends of group 0 have code 0, which the compiler reads as "no group" | `(c)` | codes `id + 1` and `-id - 1`, the compiler's own encoding | not executed | RegexGraphs.FirstGroupUnmarked | RegexGraphs.GroupEndsMarked |
