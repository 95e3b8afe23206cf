# bce: bash command completion, the engine

This project models the core of `bce`, a bash completion helper. Bash
passes it the command line and the cursor position. It looks up the
command's tree (sub-commands, aliases, arguments and their options) in
its database and then does two things:

1. It **tokenizes** the line (`BashInputToList`). This gives the command
   name, the word at the cursor and the word before it.
2. It **prunes** the tree by the typed words, then **recommends**:
   - the options of the argument being completed when there is one;
   - otherwise every sub-command, argument or option still open.

The model is in Dafny. Modules, one per file:

- `Wrappers`: `Option`.
- `Seqs`: an order-preserving `Filter`, and `Without`, the result of
  deleting a list of collected indices; plus the subsequence order.
- `Input` (input.go): the scanner.
  - The Go loop is a method proved equal to `Tokens`, a fold of one-step
    functions over the processed prefix.
  - The word queries are functions on its result.
- `CommandTree` (data_model.go:69-100):
  - the tree as datatype values: `Command`, `Alias`, `Arg`, `Opt`;
  - `Size`, which measures recursion over it.
- `Prune` (prune.go:13-129, 223-230):
  - the pruning passes as methods that follow Go's loops: collect the
    indices, then delete them from the highest down;
  - each method proved equal to a recursive specification: `ArgsPruned`,
    `SubsPruned`, `Pruned`.
- `PruneFacts`: properties of the pruned tree:
  - what survives;
  - order;
  - sibling exclusivity;
  - idempotence;
  - preservation of the precondition.
- `Recommend` (prune.go:131-221): the read-only traversals as recursive
  functions, related to a flat pre-order list of the tree's arguments.
- `Completion` (input.go:14-20, prune.go:5-11): `BashInput` and the
  line-level `prune`.
- `Scenario`: a small tree (`deploy` → `service`/`database`) worked
  through pruning and both kinds of recommendation.

Go's `isPresentOnCmdLine` flags are set on copies of children that are
written back. The model treats children as owned values, and each pass
returns the updated command.

## Model

| member | source | states |
|---|---|---|
| Input.BashInputToList | input.go:78-137 | The Go loop, with its break after offset `maxLen` and its post-loop flush, returns exactly `Tokens(cmdLine, maxLen)`. |
| Input.TokensOk | input.go:85-134 | Every word is the text of its span inside the processed prefix. The spans run strictly left to right. A bare word has no whitespace and no `=` after its first character. A quoted word starts right after its quote and has no quote of its kind. |
| Input.TokensAreOrderedSlices | input.go:115-117 | Each word is a contiguous slice `cmdLine[start..end]` of the processed prefix. Consecutive words neither overlap nor touch. |
| Input.BareWordsHaveNoDelimiters | input.go:88-107 | A bare word is non-empty and does not start with a quote. It holds no whitespace, and no `=` after its first character. |
| Input.QuotedWordsExcludeQuotes | input.go:92-97 | A quoted word starts right after its opening quote. It contains no quote of its own kind, so the closing quote is not part of it. |
| Input.TokensIgnoreRest | input.go:123-132 | The words depend only on the first `Processed(|line|, maxLen)` characters. |
| Input.CharactersBeyondLimitIgnored | input.go:123-132 | Two lines that agree up to offset `maxLen` give the same words. |
| Input.BlankLineHasNoWords | input.go:85-89 | An empty or all-whitespace line gives no words. |
| Input.SingleBareWordDropped | input.go:129-134 | An unterminated word that starts at offset 0 is never flushed. A line that is one bare word, such as `ls`, gives no words. |
| Input.UnterminatedWordFlushed | input.go:129-134 | A word that opens between words at offset `p` and is not closed within the processed prefix is still emitted as `line[start..n]`, when its text does not begin at offset 0. The text begins after the quote for a quoted word, and at `p` for a bare word. |
| Input.SameProcessedSameTokens | input.go:123-126 | Two bounds that give the same processed prefix give the same words. |
| Input.ExampleOpenQuote | input.go:129-134 | `run 'two`, whose quote is never closed, gives `run`, `two`. |
| Input.ExampleRunLine | input.go:78-137 | `run --mode=fast 'two words'` with bound 4096 gives `run`, `--mode`, `fast`, `two words`. |
| Input.ExampleDeployLine | input.go:42-67 | `deploy service --env ` with the cursor at 21 gives the words `deploy service --env`. The current word is `--env`, the previous word `service` and the command name `deploy`. |
| Input.ExampleLs | input.go:129-134 | The line `ls` gives no words. |
| Input.CommandName | input.go:42-49 | Absent exactly when the 4096-bounded scan has no words. Otherwise it is the first word: the slice of the first span, which lies before every other span. |
| Input.CurrentWord | input.go:51-58 | Absent exactly when the cursor-bounded scan has no words. Otherwise it is the last word: the slice of the last span, after every other span. |
| Input.PreviousWord | input.go:60-67 | Absent exactly when the cursor-bounded scan has fewer than two words. Otherwise it is the second-to-last word, which lies before the last one. |
| Prune.Contains | prune.go:223-230 | True exactly when the string is one of the words. |
| Prune.RemoveCollected | prune.go:40-54 | Go's deletion loop, walking the collected increasing indices from the highest down, with its three branches. It deletes exactly those indices: the result is `Without(s, removeIdx, 0)`, shorter by their number, and a subsequence of the input. The same loop is at prune.go:71-84 and 115-128. |
| Prune.MarkArg | prune.go:89-94 | A typed argument (short or long name among the words) is marked present. Any other argument keeps its flag. Nothing else changes. |
| Prune.ArgsPrunedMembers | prune.go:87-113 | The argument pass keeps exactly the marked copies of the arguments that are not consumed. |
| Prune.PruneArguments | prune.go:87-129 | The Go loop (mark, collect consumed indices with the option search, delete) returns `ArgsPruned(cmd, words)`. |
| Prune.ArgsPruned | prune.go:87-129 | The argument pass changes nothing but the argument list. |
| Prune.FirstInvoked | prune.go:16-27 | Gives the first sibling typed by its name or by an alias, or nothing when none is typed. |
| Prune.PhaseOne | prune.go:16-54 | The indices the first loop collects, once deleted, leave exactly `SiblingPass`. |
| Prune.PhaseTwo | prune.go:56-84 | The indices the second loop collects, once deleted, leave exactly the pruned survivors that are not consumed. |
| Prune.PruneSiblings | prune.go:16-54 | The first half of `pruneSubCommands` returns `SiblingPass(cs, words)`, given at most one typed sibling. |
| Prune.PruneEach | prune.go:56-69 | Every survivor is pruned recursively. An index is collected exactly when the pruned survivor is consumed; the others are written back. |
| Prune.PruneSubCommands | prune.go:13-85 | `pruneSubCommands` returns `SubsPruned(cmd, words)` when no level it visits has two typed siblings. The levels it visits are the node's sub-commands and, recursively, the survivors of each sibling pass; the children of deleted siblings are not constrained. |
| Prune.SubsPruned | prune.go:13-85 | The sub-command pass changes nothing but the sub-command list. |
| Prune.Pruned | prune.go:5-11 | Pruning changes nothing but the argument and sub-command lists. |
| Prune.PruneWith | prune.go:9-10 | Arguments first, then sub-commands, gives `Pruned(cmd, words)`. |
| Prune.PassMember | prune.go:28-37 | A sibling-pass survivor is a strictly smaller tree, and the recursion into it at prune.go:58-60 meets the same precondition. |
| Completion.PruneCommand | prune.go:5-11 | `prune` tokenizes the whole line with bound 4096 and returns the tree pruned by those words. |
| PruneFacts.ArgFate | prune.go:87-113 | A consumed argument is removed. A typed, unconsumed argument stays, marked present. An argument that was not typed stays unchanged. Everything left is unconsumed, and present if typed. |
| PruneFacts.ArgsPrunedTwice | prune.go:87-129 | A second argument pass with the same words changes nothing. |
| PruneFacts.SiblingExclusive | prune.go:16-54 | When exactly one sibling is typed and uuids are distinct, the first phase leaves only that sibling, marked present. |
| PruneFacts.SiblingPassUntyped | prune.go:16-38 | When no sibling is typed, the first phase leaves the list unchanged. |
| PruneFacts.MapPrunedMembers | prune.go:58-60 | The recursion step yields the pruned copy of each survivor and nothing else. |
| PruneFacts.SubsPrunedMembers | prune.go:56-84 | After `pruneSubCommands` the sub-commands are exactly the pruned sibling-pass survivors that are not consumed. No typed sub-command without arguments and sub-commands remains. |
| PruneFacts.PrunedKeepsOrder | prune.go:71-84 | Surviving arguments and sub-commands keep their relative order: subsequences of the marked or pruned lists, with nothing added. |
| PruneFacts.PrunedTwice | prune.go:5-11 | Pruning a pruned tree again with the same words changes nothing, for every tree `prune` handles without a panic on the levels it visits. |
| PruneFacts.NoConsumedAfterPruning | prune.go:56-84 | After pruning, no sub-command anywhere in the tree is consumed: every typed sub-command left still has arguments or sub-commands of its own, on every level. |
| PruneFacts.AtMostOneSubAfterTyping | prune.go:16-54 | When exactly one sibling is typed and uuids are distinct, at most one sub-command is left after pruning. |
| PruneFacts.PrunedStaysUnambiguous | prune.go:13-38 | A pruned tree still has at most one typed sibling on every level a second pruning visits, so it can be pruned again. |
| Recommend.FindArg | prune.go:200-207 | The first argument of a list that is present and named by the current word. Absent exactly when there is none. |
| Recommend.GetCurrentArg | prune.go:197-221 | The result is a current argument of the tree, absent exactly when the tree has none. |
| Recommend.GetCurrentArgIsFirst | prune.go:197-221 | The depth-first search equals the first current argument of the pre-order argument list: own arguments before any sub-command's. |
| Recommend.OptNames | prune.go:142-144 | The option names, one per option, in order. |
| Recommend.CollectRequired | prune.go:131-147 | Non-empty only when the tree has a current argument whose type is not `NONE`; then it is that argument's option names. Empty when there is no current argument. |
| Recommend.RequiredFromFirstCurrent | prune.go:131-147 | The required recommendations are the options of the first current argument in search order, or empty when its type is `NONE`. |
| Recommend.ShortestAliasIsFirstMinimal | prune.go:155-167 | With non-empty alias names, the alias shown is the first one of minimal length. |
| Recommend.ShortestAlias | prune.go:156-164 | The alias chosen by the shortest-alias loop is one of the sub-command's own aliases. It is empty when there are none. |
| Recommend.Display | prune.go:154-167 | An untyped sub-command is shown by its name alone when it has no alias. Otherwise the name is followed by one of its own aliases in parentheses. |
| Recommend.ArgDisplay | prune.go:175-185 | An untyped argument's display begins with the long name when there is one. The short name follows in parentheses only when both exist. With no long name the display is the short name. It is empty only when both names are. |
| Recommend.CollectOptional | prune.go:149-195 | The optional recommendations end with the entries of the node's own arguments. The order of the sub-command blocks before them is stated by `CollectOptionalOrder`, their contents by `CollectOptionalContents`. |
| Recommend.CollectOptionalOrder | prune.go:149-195 | The optional recommendations come in this order. First the sub-commands' blocks, in stored order, each starting right where the previous one ends. A block is the sub-command's display when it was not typed, immediately followed by the sub-command's own recommendations. The entries of the node's arguments come after every block. |
| Recommend.CollectOptionalContents | prune.go:149-195 | Counted with multiplicity, the optional recommendations are two groups. The first is the displays of all untyped sub-commands below the node. The second is the entries of every argument in the tree: the display of an untyped argument, the option names of a typed one. |
| Scenario.NothingTyped | prune.go:13-85 | With only the command name typed, pruning the example tree changes nothing. |
| Scenario.OptionalWhenNothingTyped | prune.go:149-195 | With nothing typed the example gives no required recommendations. Its optional ones are `service (svc)`, `--env (-e)`, `database`, in that order. |
| Scenario.ServiceTyped | prune.go:5-85 | Typing `service --env` removes `database` and marks `service` and `--env` present. `--env` stays because no option was typed. |
| Scenario.DeletedSiblingNotInspected | prune.go:16-69 | In `tool → [a → [x], b → [x, y]]` typed as `tool a x y`, `b` has two typed children. The tree still meets the precondition, because the sibling pass deletes `b` before the recursion looks inside it. |
| Scenario.RequiredWhenArgTyped | prune.go:131-147 | Completing `--env` in the pruned example tree recommends `prod`, `dev`. |
| Scenario.DeployLineRecommends | prune.go:5-147 | End to end for the line `deploy service --env `: its words prune the example tree to the typed tree, the current word is `--env`, and the required recommendations are `prod`, `dev`. |

## Left out

- `CreateCompletionInput` (input.go:22-40) is not part of this model: it reads `COMP_LINE` and `COMP_POINT` from the environment and parses the cursor with `strconv.Atoi`. `BashInput` is a plain value, and the word queries are modelled as functions of the line and the cursor.
- UTF-8 decoding is not modelled. The model's strings are sequences of characters, one offset per character, which is exact for ASCII lines. Go ranges over runes at byte offsets, and `cmdLine[startOfWord:i+1]` at input.go:132 can cut a multi-byte character. The shortest-alias loop (prune.go:159-161) compares Go's byte lengths `len(...)`, while `Recommend.Pick` compares character counts: for the aliases `ab` and `é` (two bytes, one character) Go keeps `ab` and the model picks `é`.
- The `log.Println` calls in the deletion loops (prune.go:46, 76, 120) are logging only.
- Go slice aliasing between a copied `subCmd` and its parent's backing array (prune.go:58-68) does not change the result. Children are owned values here.
- Prune.PruneSubCommands: requires at most one typed sibling on every level the pruning visits. With two or more typed siblings, each typed sibling appends its own list of indices to delete. The combined list can then repeat indices and need not increase. The deletion loop (prune.go:40-54) then either reads past the end of the shortened slice at prune.go:46 and panics, or deletes the wrong siblings. Two examples: in `[A, B, C]` with `A` and `B` typed and sharing a uuid, index 2 is collected twice and the second deletion panics. In `[C, A, B]` with the same `A` and `B`, index 0 is collected twice, and Go deletes `A` as well as `C`. A shared uuid is therefore needed to avoid the panic, but it is not enough. The model excludes every visited level with two typed siblings and does not describe what Go does there. The same precondition is carried by Prune.PruneWith, Completion.PruneCommand and PruneFacts.PrunedTwice.
- Recommend.GetCurrentArg and Recommend.CollectRequired take the current word as a string. `CollectRequiredRecommendations` dereferences `input.CurrentWord` (prune.go:135), which panics when the cursor-bounded scan has no words.
- Recommend.ShortestAliasIsFirstMinimal: stated only for non-empty alias names. An empty running minimum is always replaced (prune.go:159-160), so an empty alias name is shown only when it is the last alias.
- The scan bound: the loop checks `i >= maxLen` only after handling the character at offset `i` (input.go:123-126), so it processes `maxLen + 1` characters, one more than the comments at input.go:123 and 131 say. The model follows the code: `Processed(|line|, maxLen)` is `min(|line|, maxLen + 1)` for a non-negative bound (one character for a negative one), and `Input.CharactersBeyondLimitIgnored` states the behaviour.
- The unterminated word that starts at offset 0 (input.go:130): `startOfWord != 0` doubles as "a word is open", so such a word is never flushed. The model does the same, and `Input.SingleBareWordDropped` states it.
- main.go (process wiring, printing, the schema check, and choosing optional when required is empty) is not part of this model. Its call `*cmd = cmd.prune(*input)` (main.go:81) does not match the in-place `prune` of prune.go:5, which is the one modelled.
- dbutil.go, cli.go and the SQL parts of data_model.go are not part of this model: database, file, network and JSON I/O. The order of children is taken as given.
