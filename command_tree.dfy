/**
 * The command tree loaded from the completion database (data_model.go):
 * a command with aliases, sub-commands and arguments, each argument with
 * the options it accepts. The `isPresent` flags are the only fields the
 * completion engine changes.
 */
module CommandTree {
  import opened Wrappers

  /** `BceCommandOpt`: one value an argument accepts. */
  datatype Opt = Opt(uuid: string, argUuid: string, name: string)

  /** `BceCommandAlias`: another name of a command. */
  datatype Alias = Alias(uuid: string, cmdUuid: string, name: string)

  /** `BceCommandArg`: a flag such as `--env` / `-e`, with its options. */
  datatype Arg = Arg(
    uuid: string,
    cmdUuid: string,
    argType: string,
    description: string,
    longName: string,
    shortName: string,
    isPresent: bool,
    opts: seq<Opt>)

  /** `BceCommand`: a command or sub-command; `parentUuid` is absent at the root. */
  datatype Command = Command(
    uuid: string,
    name: string,
    parentUuid: Option<string>,
    aliases: seq<Alias>,
    subCommands: seq<Command>,
    args: seq<Arg>,
    isPresent: bool)

  /** The number of command nodes in the tree rooted at `c`. */
  function Size(c: Command): (n: nat)
    ensures n >= 1
  {
    1 + SizeOf(c.subCommands)
  }

  /** The number of command nodes in a forest. */
  function SizeOf(cs: seq<Command>): nat {
    if cs == [] then 0 else Size(cs[0]) + SizeOf(cs[1..])
  }

  /** A forest is larger than each of its trees, and a tree larger than its forest of children. */
  lemma {:induction false} SizeElem(cs: seq<Command>, k: nat)
    requires k < |cs|
    ensures Size(cs[k]) <= SizeOf(cs) && SizeOf(cs[k].subCommands) < SizeOf(cs)
  {
    if k > 0 {
      SizeElem(cs[1..], k - 1);
      assert cs[1..][k - 1] == cs[k];
    }
  }

  lemma {:induction false} SizeOfAppend(a: seq<Command>, b: seq<Command>)
    ensures SizeOf(a + b) == SizeOf(a) + SizeOf(b)
  {
    if a == [] {
      assert a + b == b;
    } else {
      assert (a + b)[1..] == a[1..] + b;
      SizeOfAppend(a[1..], b);
    }
  }
}
