# CodeGG guard scripts: a model in Dafny

CodeGG's guards are small static analysers under `scripts/`. Each prints findings and fails a
lane when there are any, so what matters is what *silence* means, and whether the scanning
underneath can be trusted. This project models the guards that hold real algorithms and proves,
for every input, what their verdicts say.

| files | what they model |
|---|---|
| `WorkflowLexis`, `WorkflowParser` | the indentation parser of the desktop gate guard (a subset of sections 8.1 and 8.2 of YAML 1.2.2): a cursor over a list of lines, one of which is overwritten in place and read again |
| `WorkflowPlain`, `WorkflowFlow`, `WorkflowLayout`, `WorkflowRoundTrip` | printed documents, and what parsing them returns |
| `RefusalCondition`, `RefusalTokens`, `RefusalProbes` | the grammar and evaluator of a Rust refusal condition, its tokenizer, and the four synthetic write roots that vouch for it |
| `Blanking`, `CodeMask` | the offset-preserving comment and literal blankers |
| `Brackets` | depth scans, the one-pass stack, and the spans a `block_in_place` call protects |
| `FunctionSpans` | which function a call stands in |
| `Landmarks` | greedy matching of ordered landmarks |
| `CommentBlocks`, `BudgetRatchet` | comment blocks, rule R3, rule R4, `bank`, and the ratchet over whole runs |
| `Doubles`, `RatioGrid` | floating-point rounding, and the ten-thousandths ratio ceilings are rounded up to |
| `MergeCoverage` | worklist reachability through field types, and unmerged fields |
| `RustStrings` | Rust string literals |
| `CommandOwnership` | who carries out a command form: frontend action or daemon |
| `CargoProfiles` | alignment of the `dev` and `test` profiles |
| `NameMapping` | camel case, snake case and the desktop contract |

Where the source works by changing things, the model does: class `Workflow` keeps the parser's
lines and cursor, class `Evaluator` the token position, `StripComments` writes into an array,
and the loops are loops. Each is proved equal to a function of its input, and the theorems are
about those functions. Python's whitespace, line breaks, floating-point division and Boolean-integer
equality are written out.

## What turned out false, and exactly when it holds

- **Sequences of a workflow.** `Read` says what the parser returns for every printable layout
  (`PrintedReads`), and `RoundTrip` when that is the printed tree. Four things are misread.
  A bare `-` that is not the last item of its sequence is read as a list of all the items after it
  (`AbsentItemMisread`). A block scalar as an item is read as its bar (`BlockItemMisread`), and a
  compact item whose first key is quoted as its line (`QuotedKeyMisread`); the lines below either
  stop the parser, and the rest of the document is lost. A flow sequence is split at a comma between
  quotes, too (`QuotedCommaMisread`). The tree comes back if and only if none of these occurs, except
  that a block holding one line, its own header, may end the document.
- **Ratio ceilings.** `_ceil_ratio` scales in floating point, and 0.0051 scales to more than 51: a tree
  that passes R4 at exactly 0.0051 is banked at 0.0052 (`LiftedRatio`). Line and word ceilings never
  rise (`RatchetNeverRises`); ratio ceilings never rise over a run if and only if no tree of it meets
  one that rounding lifts (`RatchetExact`).
- **Banking.** `bank` itself does not check first, and then raises a ceiling (`UncheckedBankRaises`).
  Against a banked manifest, banking raises no ceiling and no file slips below the floor with its ratio
  over the one recorded, if and only if R4 passes and no ratio meets a ceiling that rounding lifts
  (`CheckExact`); `LeavingOverRatio` shows that a file can slip. Neither this nor the ratchet needs
  non-zero code totals.
- **Enclosing function.** A declaration without a body takes the next function's brace and claims what
  lies between (`DeclarationClaims`). The answer is the innermost function whose body holds the offset
  if and only if the offset stands between no function's header and its brace (`EnclosingExact`).
- **Least call.** `_find_call` skips a whole marker behind a definition. As a function of any marker it
  can miss a call (`OverlapMissed`), and it finds the least call from every start if and only if no call
  starts inside a definition's marker (`FindCallExact`). The six markers this guard passes have no
  border, so for them nothing is missed on any text (`WorkerExact`, `ExecutorExact`).
- **Four probes.** They decide every condition over the tests that follow from where the write
  root lies, and for every other test there is a condition that passes all four and excuses the
  Git directory itself (`ProbesExact`).
- **Per-package overrides.** Silence is stronger than equal effective overrides: a package that
  spells out the wildcard's table under one profile is reported (`SpelledWildcardReported`);
  `SilentExact` gives the exact meaning.
- **Camel case.** The mapping is undone exactly for names that are their own lower case and do not
  start with an underscore before a letter (`CamelUndone`).

## Model

| member | source | states |
|---|---|---|
| `WorkflowRoundTrip.RoundTrip` | scripts/check_desktop_gate_wiring.py:170-343 | for every printable document (any nesting depth, compact items, plain and quoted keys and scalars, blanks around colons, nulls, flow sequences, block scalars as values and as items, blank lines, whole-line and trailing comments, any line ends) the text parses back to the printed tree if and only if absent items are last in their sequences, no compact item starts with a quoted key, no flow element holds a comma, and no item is a block scalar other than one that ends the document and holds its own header |
| `WorkflowRoundTrip.PrintedReads` | scripts/check_desktop_gate_wiring.py:185-310 | what the parser returns for every printable layout: repeated keys, misread items, and everything behind the line it stops at left out |
| `WorkflowRoundTrip.ReadExact` | scripts/check_desktop_gate_wiring.py:240-271 | a value is read as meant, and reading goes on behind it unless it is the last, if and only if its layout reads back |
| `WorkflowRoundTrip.AbsentItemMisread` | scripts/check_desktop_gate_wiring.py:254-258 | a concrete document whose null item swallows the item after it |
| `WorkflowRoundTrip.BlockItemMisread` | scripts/check_desktop_gate_wiring.py:260-270 | a concrete document whose block scalar item is read as its bar |
| `WorkflowRoundTrip.QuotedKeyMisread` | scripts/check_desktop_gate_wiring.py:260-270 | a concrete document whose quoted first key makes the item a scalar and loses the lines after it |
| `WorkflowRoundTrip.BodySkipped` | scripts/check_desktop_gate_wiring.py:193-200 | the unread body of a block item is skipped whole, or the parser is stuck on its first line with content |
| `WorkflowRoundTrip.LiteralRead` | scripts/check_desktop_gate_wiring.py:291-309 | a block scalar's body is read back line by line, and the blank lines after it are dropped |
| `WorkflowRoundTrip.SplitEnded` | scripts/check_desktop_gate_wiring.py:179-181 | splitting lines, each followed by any of Python's line ends, returns the lines |
| `WorkflowRoundTrip.BreaksListed` | scripts/check_desktop_gate_wiring.py:179-181 | lines are broken at those characters and no others |
| `WorkflowFlow.FlowExact` | scripts/check_desktop_gate_wiring.py:332-343 | elements, plain or quoted, joined by commas and any blanks between brackets are read as the list of those scalars in order, if and only if no element holds a comma; no elements as the empty list |
| `WorkflowFlow.QuotedCommaMisread` | scripts/check_desktop_gate_wiring.py:336-340 | a concrete flow sequence that is split between quotes |
| `WorkflowRoundTrip.BranchesRead` | scripts/check_desktop_gate_wiring.py:332-343 | a workflow's line `branches: [main]` is read as a list of one scalar |
| `WorkflowPlain.TameLine` | scripts/check_desktop_gate_wiring.py:149-167 | an indented text is read as itself whatever comment trails it, a `#` inside quotes included |
| `WorkflowPlain.CompactLine` | scripts/check_desktop_gate_wiring.py:251-268 | a `- key:` line is rewritten to exactly the line of the mapping's first entry |
| `WorkflowPlain.ItemLine` | scripts/check_desktop_gate_wiring.py:251-260 | an item's text is what stands behind its dash and the gap, whatever comment trails it |
| `WorkflowPlain.EntryTextSplits` | scripts/check_desktop_gate_wiring.py:312-330 | a plain or quoted key and its value are separated at the right colon, whatever blanks stand around it and whatever colons stand between quotes |
| `WorkflowParser.RewriteProgress` | scripts/check_desktop_gate_wiring.py:262-268 | re-reading the rewritten line makes progress: the nested mapping consumes it, or its indentation has grown past the sequence's and the loop stops |
| `WorkflowParser.MappingPassesOver` | scripts/check_desktop_gate_wiring.py:224-229 | a line of a mapping without a separating colon is passed over |
| `WorkflowParser.PutNew` | scripts/check_desktop_gate_wiring.py:232-237 | a new key goes to the end of the dictionary |
| `WorkflowParser.PutOld` | scripts/check_desktop_gate_wiring.py:232-237 | a repeated key keeps its place and takes the new value |
| `WorkflowParser.JoinLinesJoin` | scripts/check_desktop_gate_wiring.py:309 | a block scalar's lines are joined by line feeds |
| `WorkflowParser.DropExact` | scripts/check_desktop_gate_wiring.py:307-308 | exactly the blank lines at the end of a block scalar are dropped |
| `WorkflowParser.DocumentOfNothing` | scripts/check_desktop_gate_wiring.py:185-191 | a text without content, or one that starts with an item, is the empty dictionary |
| `WorkflowParser.Mapping` | scripts/check_desktop_gate_wiring.py:212-238 | terminates on every text; the cursor stays in range and never moves back, no line comes or goes, lines outside the part read keep their text |
| `WorkflowParser.Sequence` | scripts/check_desktop_gate_wiring.py:240-271 | the same frame, with termination by lines remaining, routine rank, and whether the line at the cursor is still at the sequence's depth |
| `WorkflowParser.Node` | scripts/check_desktop_gate_wiring.py:202-210 | the same frame |
| `WorkflowParser.Nested` | scripts/check_desktop_gate_wiring.py:273-289 | the same frame |
| `WorkflowParser.Workflow.Parse` | scripts/check_desktop_gate_wiring.py:185-191 | returns on every text, with the document the theorems above are about; the line count is unchanged |
| `WorkflowParser.Workflow.SkipIgnorable` | scripts/check_desktop_gate_wiring.py:193-200 | stops at the first line with content |
| `WorkflowParser.Workflow.ParseNode` | scripts/check_desktop_gate_wiring.py:202-210 | value, lines and cursor are those of the specification |
| `WorkflowParser.Workflow.ParseMapping` | scripts/check_desktop_gate_wiring.py:212-238 | likewise |
| `WorkflowParser.Workflow.ParseSequence` | scripts/check_desktop_gate_wiring.py:240-271 | likewise, with the line overwritten in place |
| `WorkflowParser.Workflow.ParseNested` | scripts/check_desktop_gate_wiring.py:273-289 | likewise, restoring the cursor where there is no block |
| `WorkflowParser.Workflow.ParseBlockScalar` | scripts/check_desktop_gate_wiring.py:291-309 | likewise |
| `WorkflowLexis.StripComment` | scripts/check_desktop_gate_wiring.py:154-167 | the line up to its first comment outside quotes |
| `WorkflowLexis.CutIsFirstComment` | scripts/check_desktop_gate_wiring.py:154-167 | for every line, the cut is the least index of a `#` outside quotes that is first or behind a blank, or the end |
| `WorkflowLexis.IgnorableExact` | scripts/check_desktop_gate_wiring.py:193-200 | skipped are the lines of whitespace only, and those whose first other character is a `#` |
| `WorkflowLexis.SplitKey` | scripts/check_desktop_gate_wiring.py:312-330 | the key and the rest, split at the first separating colon outside quotes |
| `WorkflowLexis.KeyEndsAtFirstColon` | scripts/check_desktop_gate_wiring.py:312-330 | for every text, the key ends at the least colon outside quotes that is last or before a blank; without one there is no key |
| `WorkflowLexis.UnquotedExact` | scripts/check_desktop_gate_wiring.py:325-329 | a text between two quotes of a kind loses them, any other is left alone |
| `WorkflowLexis.FlowBrackets` | scripts/check_desktop_gate_wiring.py:336 | a flow sequence is a text between brackets |
| `RefusalCondition.PrintedEvaluates` | scripts/check_contained_worktree_grant.py:634-758 | printing any condition with only the parentheses it needs, then evaluating it in any environment, gives its Boolean meaning |
| `RefusalCondition.ReadsExact` | scripts/check_contained_worktree_grant.py:649-758 | a token list stands for a condition exactly when it is an expression of the grammar written out, with whatever parentheses, and then for that one |
| `RefusalCondition.Evaluator.Evaluate` | scripts/check_contained_worktree_grant.py:649-656 | on every token list: the meaning of the condition the tokens stand for, or an error when they stand for none, which no environment can change |
| `RefusalCondition.Evaluator.ParseOr` | scripts/check_contained_worktree_grant.py:680-687 | both operands are read before they are combined: value and position follow the grammar |
| `RefusalCondition.Evaluator.ParsePrimary` | scripts/check_contained_worktree_grant.py:701-726 | value, position and error cases of a primary follow the grammar |
| `RefusalProbes.FourProbesSuffice` | scripts/check_contained_worktree_grant.py:115-126 | a condition over determined tests with the four required verdicts refuses, for every write path and every administration root properly inside the Git directory, exactly the paths under the Git directory other than the administration root |
| `RefusalProbes.ProbesExact` | scripts/check_contained_worktree_grant.py:794-859 | the probes vouch for all conditions over the determined tests and one more test if and only if that test is determined |
| `RefusalTokens.TextEvaluates` | scripts/check_contained_worktree_grant.py:611-631 | any expression, with any whitespace or none around its tokens, is tokenized and evaluated to its meaning |
| `RefusalTokens.TextExact` | scripts/check_contained_worktree_grant.py:611-758 | and no other text is: a text stands for a condition exactly when it is an expression for it, spaced in some way |
| `RefusalTokens.GuardedConditionReads` | scripts/check_contained_worktree_grant.py:611-758 | the refusal as `assert_grant` spells it stands for its condition |
| `RefusalTokens.Tokenize` | scripts/check_contained_worktree_grant.py:616-631 | the tokens of the text, or an error at a character no token starts with |
| `RefusalTokens.TokensExact` | scripts/check_contained_worktree_grant.py:611-631 | a text is tokenized exactly when it is tokens with whitespace around them, at least where they would join, and then into those |
| `RefusalTokens.NameCharsListed` | scripts/check_contained_worktree_grant.py:611-613 | names are made of the ASCII letters, digits and the underscore, and start with no digit |
| `RefusalProbes.CheckRefusal` | scripts/check_contained_worktree_grant.py:779-859 | each finding is reported exactly when what it says holds of the conditions found; there are none if and only if there is one condition, no tautology pattern in it, and the four verdicts are the required ones |
| `RefusalProbes.ComponentsAppend` | scripts/check_contained_worktree_grant.py:597-601 | behind a slash of either kind a part is one more component, unless it is empty or a dot |
| `RefusalProbes.ComponentsOne` | scripts/check_contained_worktree_grant.py:597-601 | likewise a path without separators |
| `RefusalProbes.GuardedConditionSuffices` | scripts/check_contained_worktree_grant.py:779-859 | the refusal as `assert_grant` spells it passes, and refuses exactly what it must |
| `Blanking.StripLaws` | scripts/check_desktop_panel_authority.py:210-258 | for every text: same length, same newlines, characters only turned to spaces, idempotent, every offset on the same line |
| `Blanking.ExactlyCommentsBlanked` | scripts/check_desktop_panel_authority.py:210-258 | for every script made of code, strings and comments, the comments are blanked and nothing else is touched |
| `Blanking.EveryCommentBlanked` | scripts/check_desktop_panel_authority.py:210-258 | every text is made of such pieces, open strings and comments included, so this says what is left of any text |
| `Blanking.LineOfExact` | scripts/check_desktop_panel_authority.py:368-370 | the line of an offset is one more than the newlines before it |
| `Blanking.NewlinesJoin` | scripts/check_desktop_panel_authority.py:368-370 | newlines are counted, each once |
| `Blanking.StripComments` | scripts/check_desktop_editor_authority.py:159-203 | the in-place scanner computes exactly that blanking, and obeys the laws |
| `Blanking.BlankBlock` | scripts/check_desktop_panel_authority.py:244-256 | a block comment is blanked through its end, newlines kept, the rest untouched |
| `Blanking.SameLine` | scripts/check_desktop_panel_authority.py:368-370 | the line number of any offset is the same before and after blanking |
| `CodeMask.MaskSource` | scripts/check_model_profile_capability_mirror.py:79-157 | computes the masked source; same length, newlines and line numbers, idempotent |
| `CodeMask.MaskedTwice` | scripts/check_model_profile_capability_mirror.py:79-157 | masking twice is masking once: blanking never makes new text open a literal |
| `CodeMask.ExactlyLiteralsBlanked` | scripts/check_model_profile_capability_mirror.py:79-157 | for every source made of code, raw and ordinary strings, character literals and comments, exactly those literals and comments are blanked |
| `CodeMask.EveryLiteralBlanked` | scripts/check_model_profile_capability_mirror.py:79-157 | every source is made of such lexemes, open ones at its end included, so this says what is left of any source |
| `CodeMask.MaskedBlanks` | scripts/check_model_profile_capability_mirror.py:74-76 | masking only turns characters other than newlines into spaces |
| `Brackets.BraceMatches` | scripts/check_git_consistency_consumers.py:132-145 | for every text and every opening bracket, the one-pass map holds exactly what the depth scan from it finds, "no match" included |
| `Brackets.MatchingForward` | scripts/check_contained_worktree_grant.py:286-297 | the loop computes the depth scan |
| `Brackets.MatchingBackward` | scripts/check_no_nested_runtime_block_on.py:139-150 | the loop computes the backward depth scan |
| `Brackets.MatchersInverse` | scripts/check_no_nested_runtime_block_on.py:125-150 | forward and backward matching are inverse wherever either succeeds |
| `Brackets.ForwardExact` | scripts/check_no_nested_runtime_block_on.py:125-136 | the scan finds a bracket exactly when the height returns there for the first time |
| `Brackets.ForwardFirst` | scripts/check_no_nested_runtime_block_on.py:125-136 | wherever it starts, the scan stops at the first closing bracket that brings the height back |
| `Brackets.BackwardFirst` | scripts/check_no_nested_runtime_block_on.py:139-150 | and backward at the first opening bracket that does |
| `Brackets.SpansLaminar` | scripts/check_no_nested_runtime_block_on.py:227-244 | any two protected spans are nested or disjoint, balanced input or not |
| `Brackets.InsideSpan` | scripts/check_no_nested_runtime_block_on.py:227-254 | an index lies strictly inside a span exactly when the span's parenthesis is still open there |
| `Brackets.ProtectedSpans` | scripts/check_no_nested_runtime_block_on.py:227-244 | one span per call, to its matching parenthesis or to the end |
| `Brackets.ReportedSites` | scripts/check_no_nested_runtime_block_on.py:247-258 | a call site is reported if and only if no `block_in_place` parenthesis is still open there |
| `Brackets.MatchedInside` | scripts/check_git_consistency_consumers.py:132-145 | a bracket opened inside a matched pair is matched inside it |
| `FunctionSpans.FunctionSpans` | scripts/check_git_consistency_consumers.py:148-159 | one function per header whose next brace is matched, in order, and no others |
| `FunctionSpans.FunctionExact` | scripts/check_git_consistency_consumers.py:148-159 | a header's function reaches from its start to where the height returns after the first brace behind the header |
| `FunctionSpans.EnclosingFunction` | scripts/check_git_consistency_consumers.py:162-169 | the covering span that starts last, if any covers the offset |
| `FunctionSpans.EnclosingExact` | scripts/check_git_consistency_consumers.py:148-169 | the answer is the innermost function whose body holds the offset if and only if the offset stands between no function's header and its brace |
| `FunctionSpans.DeclarationClaims` | scripts/check_git_consistency_consumers.py:148-169 | a concrete text in which a declaration without a body is given for a call in another function |
| `Landmarks.FindingsExact` | scripts/check_delegated_continuation_authority.py:107-162 | greedy matching is exact: no findings if and only if the terminal marker occurs and some non-overlapping choice of calls, one per landmark in order, starts no later than its first occurrence |
| `Landmarks.ReportedSound` | scripts/check_delegated_continuation_authority.py:138-162 | whatever the markers, no findings means such a choice exists |
| `Landmarks.GreedyStep` | scripts/check_delegated_continuation_authority.py:138-162 | the exchange step: if any choice works, one that takes the least call first does |
| `Landmarks.FindCallExact` | scripts/check_delegated_continuation_authority.py:88-104 | the least call is found from every start if and only if no call starts inside a definition's marker |
| `Landmarks.DefinitionExact` | scripts/check_delegated_continuation_authority.py:98-102 | an occurrence is skipped exactly when, before it on its line, `fn` stands with only whitespace behind it |
| `Landmarks.LineStartExact` | scripts/check_delegated_continuation_authority.py:99 | a line starts at the text's start or just behind a newline, and holds none |
| `Landmarks.AsyncFnIsDefinition` | scripts/check_delegated_continuation_authority.py:98-102 | a definition that starts with `async fn` is skipped |
| `Landmarks.OverlapMissed` | scripts/check_delegated_continuation_authority.py:88-104 | a concrete text and marker for which a call is missed |
| `Landmarks.WorkerExact` | scripts/check_delegated_continuation_authority.py:60-65 | on every text, the worker has no findings if and only if its three landmarks are called in order before the provider entry |
| `Landmarks.ExecutorExact` | scripts/check_delegated_continuation_authority.py:69-73 | likewise the executor |
| `Landmarks.BorderlessApart` | scripts/check_delegated_continuation_authority.py:88-104 | a marker without a border never overlaps itself, so that condition holds |
| `Landmarks.FindCall` | scripts/check_delegated_continuation_authority.py:88-104 | the loop computes the search the theorems are about, on exactly the arguments on which it ends |
| `Landmarks.SearchRepeats` | scripts/check_delegated_continuation_authority.py:98-103 | on the others, an empty marker behind a definition, one turn of the loop leads back to itself |
| `Landmarks.CheckOrderedLandmarks` | scripts/check_delegated_continuation_authority.py:107-162 | the loop computes the findings the theorems are about; each is reported exactly when what it says holds, a missing terminal marker included |
| `Landmarks.ReportsExact` | scripts/check_delegated_continuation_authority.py:138-162 | a landmark is missing when it is not called from the cursor on, and late when it is, but only behind the terminal marker, with the offset reported; every landmark is looked at |
| `CommentBlocks.BlocksPartition` | scripts/check_comment_budget.py:170-184 | the blocks are the maximal runs of adjacent spans, in order and without gaps |
| `CommentBlocks.EveryRunListed` | scripts/check_comment_budget.py:170-184 | every maximal run is among them, so their number is the number of runs |
| `CommentBlocks.LongestIsLargest` | scripts/check_comment_budget.py:170-186 | the longest block is the largest run extent |
| `CommentBlocks.Measure` | scripts/check_comment_budget.py:158-189 | computes the counts |
| `CommentBlocks.FactsFromScan` | scripts/check_comment_budget.py:424-453 | computes the same counts in one loop |
| `CommentBlocks.SumsJoin` | scripts/check_comment_budget.py:162-167 | lines and words are summed over the spans |
| `CommentBlocks.SumsOfOne` | scripts/check_comment_budget.py:164-167 | a span counts from its first line through its last, with its words |
| `CommentBlocks.CheckBlocks` | scripts/check_comment_budget.py:327-357 | reports exactly the oversized blocks that are not exempt |
| `CommentBlocks.RuleThreeExact` | scripts/check_comment_budget.py:456-478 | with no exemptions, R3 fires for a file if and only if its longest block is over the maximum |
| `BudgetRatchet.RatchetNeverRises` | scripts/check_comment_budget.py:373-421 | over any run of trees, each passing R4 before it is banked, no line or word ceiling and no file's effective line ceiling ever rises, and no file is ever listed anew |
| `BudgetRatchet.RatchetExact` | scripts/check_comment_budget.py:373-421 | over such a run no ratio ceiling ever rises, if and only if no tree of it meets a ceiling that rounding lifts |
| `BudgetRatchet.LiftedRatio` | scripts/check_comment_budget.py:481-483 | a concrete run of two trees over which the ratio ceiling rises from 0.0051 to 0.0052 |
| `BudgetRatchet.CheckExact` | scripts/check_comment_budget.py:373-421 | against a banked manifest, banking raises no ceiling and no file leaves the listing over its recorded ratio, if and only if R4 passes and no ratio meets a ceiling that rounding lifts |
| `BudgetRatchet.UncheckedBankRaises` | scripts/check_comment_budget.py:486-527 | a concrete tree that R4 does not pass and whose banking raises a ceiling |
| `BudgetRatchet.LeavingOverRatio` | scripts/check_comment_budget.py:398-421 | a concrete tree whose banking raises nothing and which R4 does not pass |
| `BudgetRatchet.BankThenCheck` | scripts/check_comment_budget.py:486-527 | the manifest banked from a tree makes R4 report nothing on it |
| `BudgetRatchet.BankedIsLeast` | scripts/check_comment_budget.py:486-527 | no manifest with a lower line or word ceiling lets the tree pass, nor one whose ratio is two steps below |
| `BudgetRatchet.FileBankedIsLeast` | scripts/check_comment_budget.py:520-527 | likewise for each listed file |
| `BudgetRatchet.SumsJoin` | scripts/check_comment_budget.py:374-377 | the totals are summed over the files |
| `BudgetRatchet.SumsOfOne` | scripts/check_comment_budget.py:374-377 | a file adds its own lines, words and code |
| `RatioGrid.CeilRatioExact` | scripts/check_comment_budget.py:481-483 | in floating point, a rounded ratio is never below the measured one; it exceeds a recorded ceiling that the measured one respects only where that is met exactly and scales to more than its index, and then it is the next |
| `RatioGrid.WithinExact` | scripts/check_comment_budget.py:393-421 | comparing the floats of two ratios decides as comparing the fractions would |
| `RatioGrid.MeasuredExact` | scripts/check_comment_budget.py:188 | a ratio is the float nearest to the quotient, and without code the number of comment lines |
| `RatioGrid.FiftyOneRoundsUp` | scripts/check_comment_budget.py:481-483 | 0.0051, scaled by ten thousand in floating point, is above 51 |
| `Doubles.RoundNearest` | scripts/check_comment_budget.py:392-394 | no number of 53 binary digits is nearer than the rounded one |
| `Doubles.RoundIsDouble` | scripts/check_comment_budget.py:392-394 | which is itself such a number |
| `Doubles.RoundClose` | scripts/check_comment_budget.py:392-394 | and off by at most one part in 2^53 |
| `Doubles.RoundMonotone` | scripts/check_comment_budget.py:392-394 | rounding keeps order |
| `BudgetRatchet.CheckBudget` | scripts/check_comment_budget.py:373-421 | each violation is listed exactly when its ceiling is passed or its file is unlisted at the floor; there are none if and only if every ceiling is respected and every unlisted file is below the floor |
| `BudgetRatchet.Bank` | scripts/check_comment_budget.py:486-527 | writes the manifest the theorems are about |
| `BudgetRatchet.BankedLists` | scripts/check_comment_budget.py:520-527 | exactly the files at or over the floor are listed, each with its own measurements |
| `MergeCoverage.ReachableStructs` | scripts/check_config_merge_coverage.py:205-226 | terminates despite duplicates and returns exactly the structs reachable from `Config` by mentions; fails exactly when `Config` is not defined |
| `MergeCoverage.UnmergedFields` | scripts/check_config_merge_coverage.py:240-260 | the fields without an arm, owner by owner in declaration order and as often as declared; as a set, exactly the declared fields of reachable merge-owning structs that no arm mentions |
| `MergeCoverage.UnmergedJoin` | scripts/check_config_merge_coverage.py:252-259 | owners are listed one behind the other |
| `MergeCoverage.WithoutArmJoin` | scripts/check_config_merge_coverage.py:257-259 | and so are the fields of one |
| `RustStrings.LiteralRoundTrip` | scripts/check_command_catalog_ownership.py:83-137 | quoting any string and reading it back returns it and the index past the closing quote, whatever stands around it |
| `RustStrings.SpelledReads` | scripts/check_command_catalog_ownership.py:83-137 | however a literal is spelled with plain characters, escapes and continuations, reading it gives what its pieces mean |
| `RustStrings.ReadExact` | scripts/check_command_catalog_ownership.py:83-137 | a literal is read exactly when it is spelled in pieces and closed, and then as what they mean, so an unclosed one is not read |
| `RustStrings.EscapesListed` | scripts/check_command_catalog_ownership.py:98-135 | three letters stand for control characters behind a backslash, any other character for itself |
| `RustStrings.ContinuationNeutral` | scripts/check_command_catalog_ownership.py:124-130 | a line continuation inserted before any piece that does not start with a space or a tab changes nothing in what is read |
| `RustStrings.ParseRustString` | scripts/check_command_catalog_ownership.py:83-137 | the loop computes that reading, unterminated literals included |
| `CommandOwnership.CleanIsTotalOnto` | scripts/check_frontend_action_set.py:266-347 | clean shape and closure over a catalog with unique names make the declarations a total function from the frontend forms onto the action enum |
| `CommandOwnership.CleanIsDisjoint` | scripts/check_command_catalog_ownership.py:544-569 | with the effect table clean too, no form is both executed by the daemon and dispatched by the frontend |
| `CommandOwnership.KindExact` | scripts/check_frontend_action_set.py:307-331 | in a catalog with unique names the kind looked up is the kind catalogued |
| `CommandOwnership.ByIdLast` | scripts/check_frontend_action_set.py:307 | of several commands of a name the last counts |
| `CommandOwnership.FirstFormFirst` | scripts/check_frontend_action_set.py:319 | of several forms of a name the first |
| `CommandOwnership.ServedCount` | scripts/check_frontend_action_set.py:333-346 | a target is served as often as the declarations list it |
| `CommandOwnership.CheckSetShape` | scripts/check_frontend_action_set.py:266-300 | each finding is reported exactly when what it says holds; there are none if and only if there are variants and declarations, every declaration is well shaped and every variant declared |
| `CommandOwnership.CheckClosure` | scripts/check_frontend_action_set.py:303-347 | each finding is reported exactly when what it says holds; there are none if and only if everything served is a frontend form and every frontend form is served exactly once |
| `CommandOwnership.CheckEffectTable` | scripts/check_command_catalog_ownership.py:544-569 | exactly the keys that name no daemon form are reported, with the reason |
| `CommandOwnership.ProblemExact` | scripts/check_frontend_action_set.py:307-331 | in a catalog with unique names the reason found is the true one: no such command, no such form, or another kind |
| `CargoProfiles.ReportedExact` | scripts/check_cargo_profile_alignment.py:104-115 | resolved values differ if and only if the `test` table sets the field to a value other than the one the `dev` table sets, or other than the default where it sets none; a field set alike in both never does |
| `CargoProfiles.ResolvedExact` | scripts/check_cargo_profile_alignment.py:104-115 | every field is resolved to the nearest table that sets it, and `package` and `inherits` are not fields |
| `CargoProfiles.SameExact` | scripts/check_cargo_profile_alignment.py:143 | values are equal within their kind, and a Boolean is equal to one or to zero |
| `CargoProfiles.SilentExact` | scripts/check_cargo_profile_alignment.py:118-164 | no override is reported if and only if every possible package name has the same effective override in both profiles and a name listed in one only has none |
| `CargoProfiles.CleanIsSameUnits` | scripts/check_cargo_profile_alignment.py:136-164 | nothing reported means that every package, listed or not, is compiled with the same hashed settings under both profiles |
| `CargoProfiles.SpelledWildcardReported` | scripts/check_cargo_profile_alignment.py:152-164 | a manifest whose profiles treat every package alike and which is reported nevertheless |
| `CargoProfiles.ResolveOverrides` | scripts/check_cargo_profile_alignment.py:118-133 | every listed name and `*` is resolved to its effective override |
| `CargoProfiles.EffectiveExact` | scripts/check_cargo_profile_alignment.py:118-133 | a package's own table counts if it holds anything, else the table of `*`, else none |
| `CargoProfiles.CompareFields` | scripts/check_cargo_profile_alignment.py:136-150 | reports exactly the hashed fields that the `test` table sets to a value other than the one `dev` sets, or other than the default where `dev` sets none |
| `CargoProfiles.ComparePackages` | scripts/check_cargo_profile_alignment.py:152-166 | reports exactly the names whose compared overrides differ |
| `NameMapping.CamelUndone` | scripts/check_desktop_editor_authority.py:447-448 | camel case then snake case gives a name back, in any script, if and only if it is its own lower case and does not start with an underscore before a letter |
| `NameMapping.CamelInjective` | scripts/check_desktop_editor_authority.py:447-448 | camel case is injective on names without ASCII capitals |
| `NameMapping.CamelHump` | scripts/check_desktop_editor_authority.py:447-448 | an underscore and a lower-case letter, anywhere, become the capital, and what stands on either side is mapped as if alone |
| `NameMapping.CamelPlain` | scripts/check_desktop_editor_authority.py:447-448 | a name without such a pair is left as it is |
| `NameMapping.LettersPair` | scripts/check_desktop_editor_authority.py:447-448 | the two alphabets correspond letter by letter |
| `NameMapping.UnderscoredJoin` | scripts/check_command_catalog_ownership.py:370-371 | exactly the ASCII capitals get an underscore |
| `NameMapping.ViewSuffix` | scripts/check_desktop_editor_authority.py:460 | views are the types whose names end in `View` |
| `NameMapping.AgreesIsBijection` | scripts/check_desktop_editor_authority.py:451-489 | a clean contract is a bijection between a view's fields and its contract's, inverted by snake case exactly on the names it undoes |
| `NameMapping.CheckContract` | scripts/check_desktop_editor_authority.py:451-489 | each finding is reported exactly when what it says holds of a view; there are none if and only if every view has a contract whose fields are exactly the camel-case names of its own |

## Left out

- File reading, tree walking, subprocesses, TOML loading, TOML writing and message texts: manifests, catalogs, spans, token texts and file contents are data.
- Regular-expression extraction of structs, enums, declarations, call sites and literals, and the scanner module behind `check_comment_budget.py` and `check_no_nested_runtime_block_on.py`: their results are inputs.
- WorkflowRoundTrip.RoundTrip: printed documents hold no plain text with an unpaired quote, no flow sequence inside another, and no block line left of its block's first; a `>` scalar is given by its lines, which the parser does not fold.
- Python's recursion limit: the parser and the evaluator are proved to terminate, at any depth.
- Self-tests and their fixtures, and guards that only look for substrings: nothing unbounded to state.
- Rules R1, R2, R5 and R6 of the comment budget: path and document lookups.
- RefusalProbes.FourProbesSuffice: path equality is the evaluator's string equality, while Rust compares components.
- RefusalProbes.CheckRefusal: takes the conditions already lifted out of `assert_grant`, and the verdict of the tautology pattern as a function of the text.
- Landmarks.CheckOrderedLandmarks: landmarks are not empty; the guard's are constants.
- NameMapping.CamelUndone: of `str.lower` only three laws are used (ASCII case does not matter to it, it leaves no ASCII capital, an ASCII start stays); `AsciiLowerCases` shows they can be met.
- RatioGrid.CeilRatioExact: for at most 2^38 comment lines, beyond which quotients can be closer together than floats; the range of the exponent is not bounded, and a written ratio is read back as the same float.
- MergeCoverage.UnmergedFields: takes the owners in the order of their names, which the source sorts first.
- Blanking.ExactlyCommentsBlanked: pieces follow the scanner, which ends a block comment at `/*/` and knows no regular-expression literals; no agreement with ECMAScript is claimed.
- CodeMask.ExactlyLiteralsBlanked: an escaped character literal ends at its first quote, as in the scanner, so `'\''` is two lexemes.
