/**
 * The parsed completion request (`BashInput`, input.go:14-20) and the
 * line-level `prune` (prune.go:5-11): the whole line is tokenized with
 * the maximum line size as bound, then the tree's arguments and
 * sub-commands are pruned by those words.
 */
module Completion {
  import opened Wrappers
  import opened Input
  import opened CommandTree
  import opened Prune

  /** `BashInput`: the line, the cursor and the words picked from it. */
  datatype BashInput = BashInput(
    cursorPosition: int,
    cmdLine: string,
    cmdName: Option<string>,
    currentWord: Option<string>,
    previousWord: Option<string>)

  /** The words `prune` matches the tree against. */
  function LineWords(input: BashInput): seq<string> {
    Tokens(input.cmdLine, BashMaxLineSize)
  }

  /** `prune`: the tree pruned by the words of the whole line. */
  method PruneCommand(cmd: Command, input: BashInput) returns (res: Command)
    requires Unambiguous(cmd, LineWords(input))
    ensures res == Pruned(cmd, LineWords(input))
  {
    var words := BashInputToList(input.cmdLine, BashMaxLineSize);
    res := PruneWith(cmd, words);
  }
}
