/**
 * What the completion offers once the tree is pruned (prune.go:131-221):
 * the options of the argument being completed, and the optional entries
 * (sub-commands and arguments not yet typed, options of typed ones).
 *
 * These are read-only traversals of the tree and are written as
 * recursive functions. `AllArgs` lists every argument of a tree in the
 * order `GetCurrentArg` searches it, and the lemmas tie the depth-first
 * search and the collectors to that list.
 */
module Recommend {
  import opened Wrappers
  import opened Seqs
  import opened CommandTree

  /** The argument being completed: typed on the line and named by the current word. */
  predicate IsCurrent(a: Arg, currentWord: string) {
    a.isPresent && (a.longName == currentWord || a.shortName == currentWord)
  }

  /** The first current argument of a list. */
  function FindArg(args: seq<Arg>, currentWord: string): (r: Option<Arg>)
    ensures r.Some? ==> exists k :: (0 <= k < |args| && args[k] == r.value && IsCurrent(r.value, currentWord)
      && forall j :: 0 <= j < k ==> !IsCurrent(args[j], currentWord))
    ensures r.None? <==> forall a :: a in args ==> !IsCurrent(a, currentWord)
  {
    if args == [] then None
    else if IsCurrent(args[0], currentWord) then Some(args[0])
    else
      var r := FindArg(args[1..], currentWord);
      assert r.Some? ==> exists k :: (0 <= k < |args[1..]| && args[1..][k] == r.value && IsCurrent(r.value, currentWord)
        && forall j :: 0 <= j < k ==> !IsCurrent(args[1..][j], currentWord));
      assert forall a :: a in args ==> a == args[0] || a in args[1..];
      r
  }

  lemma {:induction false} FindArgAppend(a: seq<Arg>, b: seq<Arg>, currentWord: string)
    ensures FindArg(a + b, currentWord) == if FindArg(a, currentWord).Some? then FindArg(a, currentWord) else FindArg(b, currentWord)
  {
    if a == [] {
      assert a + b == b;
    } else {
      assert (a + b)[0] == a[0] && (a + b)[1..] == a[1..] + b;
      FindArgAppend(a[1..], b, currentWord);
    }
  }

  /** Every argument of the tree in search order: the node's own, then each sub-tree in turn. */
  function AllArgs(c: Command): seq<Arg>
    decreases Size(c), 1
  {
    c.args + AllArgsIn(c.subCommands)
  }

  function AllArgsIn(cs: seq<Command>): seq<Arg>
    decreases SizeOf(cs), 2
  {
    if cs == [] then [] else AllArgs(cs[0]) + AllArgsIn(cs[1..])
  }

  /**
   * `GetCurrentArg`: the node's own arguments in order; when none is
   * current, the sub-commands depth first, stopping at the first hit.
   */
  function GetCurrentArg(c: Command, currentWord: string): (r: Option<Arg>)
    ensures r.Some? ==> IsCurrent(r.value, currentWord) && r.value in AllArgs(c)
    ensures r.None? <==> forall a :: a in AllArgs(c) ==> !IsCurrent(a, currentWord)
    decreases Size(c), 1
  {
    match FindArg(c.args, currentWord)
    case Some(a) => Some(a)
    case None => GetCurrentArgIn(c.subCommands, currentWord)
  }

  /** The first hit among the sub-commands, in order. */
  function GetCurrentArgIn(cs: seq<Command>, currentWord: string): (r: Option<Arg>)
    ensures r.Some? ==> IsCurrent(r.value, currentWord) && r.value in AllArgsIn(cs)
    ensures r.None? <==> forall a :: a in AllArgsIn(cs) ==> !IsCurrent(a, currentWord)
    decreases SizeOf(cs), 2
  {
    if cs == [] then None
    else match GetCurrentArg(cs[0], currentWord)
      case Some(a) => Some(a)
      case None => GetCurrentArgIn(cs[1..], currentWord)
  }

  /**
   * The depth-first search finds exactly the first current argument of
   * the search-order list: own arguments before any sub-command's.
   */
  lemma {:induction false} GetCurrentArgIsFirst(c: Command, currentWord: string)
    ensures GetCurrentArg(c, currentWord) == FindArg(AllArgs(c), currentWord)
    decreases Size(c), 1
  {
    FindArgAppend(c.args, AllArgsIn(c.subCommands), currentWord);
    GetCurrentArgInIsFirst(c.subCommands, currentWord);
  }

  lemma {:induction false} GetCurrentArgInIsFirst(cs: seq<Command>, currentWord: string)
    ensures GetCurrentArgIn(cs, currentWord) == FindArg(AllArgsIn(cs), currentWord)
    decreases SizeOf(cs), 2
  {
    if cs != [] {
      GetCurrentArgIsFirst(cs[0], currentWord);
      GetCurrentArgInIsFirst(cs[1..], currentWord);
      FindArgAppend(AllArgs(cs[0]), AllArgsIn(cs[1..]), currentWord);
    }
  }

  /** The names of a list of options, in order. */
  function OptNames(opts: seq<Opt>): (r: seq<string>)
    ensures |r| == |opts| && forall i :: 0 <= i < |opts| ==> r[i] == opts[i].name
  {
    if opts == [] then [] else [opts[0].name] + OptNames(opts[1..])
  }

  /**
   * `CollectRequiredRecommendations`: the option names of the current
   * argument, unless its type is `NONE` or there is no current argument.
   */
  function CollectRequired(c: Command, currentWord: string): (r: seq<string>)
    ensures r != [] ==> exists a :: (a in AllArgs(c) && IsCurrent(a, currentWord)
      && a.argType != "NONE" && r == OptNames(a.opts))
    ensures (forall a :: a in AllArgs(c) ==> !IsCurrent(a, currentWord)) ==> r == []
  {
    match GetCurrentArg(c, currentWord)
    case None => []
    case Some(a) => if a.argType != "NONE" then OptNames(a.opts) else []
  }

  /** The options offered are those of the first current argument of the search-order list. */
  lemma RequiredFromFirstCurrent(c: Command, currentWord: string, k: nat)
    requires k < |AllArgs(c)| && IsCurrent(AllArgs(c)[k], currentWord)
    requires forall j :: 0 <= j < k ==> !IsCurrent(AllArgs(c)[j], currentWord)
    ensures var a := AllArgs(c)[k];
      CollectRequired(c, currentWord) == if a.argType != "NONE" then OptNames(a.opts) else []
  {
    GetCurrentArgIsFirst(c, currentWord);
    FirstCurrentUnique(AllArgs(c), currentWord, k);
  }

  lemma {:induction false} FirstCurrentUnique(args: seq<Arg>, currentWord: string, k: nat)
    requires k < |args| && IsCurrent(args[k], currentWord)
    requires forall j :: 0 <= j < k ==> !IsCurrent(args[j], currentWord)
    ensures FindArg(args, currentWord) == Some(args[k])
  {
    if k > 0 {
      FirstCurrentUnique(args[1..], currentWord, k - 1);
    }
  }

  // ---------------------------------------------------------------------
  // Optional recommendations
  // ---------------------------------------------------------------------

  /** One step of the shortest-alias loop: an empty running minimum is always replaced. */
  function Pick(shortest: string, name: string): string {
    if |shortest| == 0 then name
    else if |name| < |shortest| then name
    else shortest
  }

  /** The shortest-alias loop, from running minimum `shortest` over the remaining aliases. */
  function Shortest(aliases: seq<Alias>, shortest: string): (r: string)
    ensures r == shortest || exists k :: 0 <= k < |aliases| && r == aliases[k].name
  {
    if aliases == [] then shortest
    else
      var r := Shortest(aliases[1..], Pick(shortest, aliases[0].name));
      assert forall k :: 0 <= k < |aliases[1..]| ==> aliases[1..][k] == aliases[k + 1];
      r
  }

  /** The alias shown next to a sub-command: one of its own aliases, or empty when it has none. */
  function ShortestAlias(aliases: seq<Alias>): (r: string)
    ensures aliases == [] ==> r == ""
    ensures aliases != [] ==> exists k :: 0 <= k < |aliases| && r == aliases[k].name
  {
    Shortest(aliases, "")
  }

  /**
   * With non-empty alias names, the alias shown is the first one of
   * minimal length: every earlier alias is strictly longer and no alias
   * is shorter.
   */
  lemma ShortestAliasIsFirstMinimal(aliases: seq<Alias>)
    requires |aliases| > 0
    requires forall i :: 0 <= i < |aliases| ==> |aliases[i].name| > 0
    ensures exists k :: (0 <= k < |aliases| && ShortestAlias(aliases) == aliases[k].name
      && (forall j :: 0 <= j < |aliases| ==> |aliases[k].name| <= |aliases[j].name|)
      && (forall j :: 0 <= j < k ==> |aliases[j].name| > |aliases[k].name|))
  {
    assert ShortestAlias(aliases) == Shortest(aliases[1..], aliases[0].name);
    var k := ShortestFrom(aliases, 1, 0);
  }

  /** The fold from position `i` with the first-minimal of the first `i` aliases, at `m`, as running minimum. */
  lemma {:induction false} ShortestFrom(aliases: seq<Alias>, i: nat, m: nat) returns (k: nat)
    requires 0 < i <= |aliases| && m < i
    requires forall j :: 0 <= j < |aliases| ==> |aliases[j].name| > 0
    requires forall j :: 0 <= j < i ==> |aliases[m].name| <= |aliases[j].name|
    requires forall j :: 0 <= j < m ==> |aliases[j].name| > |aliases[m].name|
    ensures k < |aliases| && Shortest(aliases[i..], aliases[m].name) == aliases[k].name
    ensures forall j :: 0 <= j < |aliases| ==> |aliases[k].name| <= |aliases[j].name|
    ensures forall j :: 0 <= j < k ==> |aliases[j].name| > |aliases[k].name|
    decreases |aliases| - i
  {
    if i == |aliases| {
      k := m;
    } else {
      assert aliases[i..][0] == aliases[i] && aliases[i..][1..] == aliases[i + 1..];
      if |aliases[i].name| < |aliases[m].name| {
        k := ShortestFrom(aliases, i + 1, i);
      } else {
        k := ShortestFrom(aliases, i + 1, m);
      }
    }
  }

  /** How a sub-command that was not typed is shown: its name, with one of its aliases in parentheses when it has any. */
  function Display(c: Command): (r: string)
    ensures |c.aliases| == 0 ==> r == c.name
    ensures |c.aliases| > 0 ==> exists k :: 0 <= k < |c.aliases| && r == c.name + " (" + c.aliases[k].name + ")"
  {
    if |c.aliases| > 0 then c.name + " (" + ShortestAlias(c.aliases) + ")" else c.name
  }

  /**
   * How an argument that was not typed is shown: it begins with the long
   * name when there is one, the short name follows in parentheses only
   * when both exist, and it is empty only when both names are.
   */
  function ArgDisplay(a: Arg): (r: string)
    ensures |a.longName| > 0 ==> |a.longName| <= |r| && r[..|a.longName|] == a.longName
    ensures |a.longName| > 0 && |a.shortName| > 0 ==> r[|a.longName|..] == " (" + a.shortName + ")"
    ensures |a.longName| > 0 && |a.shortName| == 0 ==> r == a.longName
    ensures |a.longName| == 0 ==> r == a.shortName
    ensures |r| == 0 <==> |a.longName| == 0 && |a.shortName| == 0
  {
    if |a.longName| > 0 then
      if |a.shortName| > 0 then a.longName + " (" + a.shortName + ")" else a.longName
    else a.shortName
  }

  /** The entries of one argument: its display when not typed, its option names when typed. */
  function ArgEntry(a: Arg): seq<string> {
    if !a.isPresent then [ArgDisplay(a)] else OptNames(a.opts)
  }

  function ArgEntries(args: seq<Arg>): seq<string> {
    if args == [] then [] else ArgEntry(args[0]) + ArgEntries(args[1..])
  }

  /**
   * `CollectOptionalRecommendations`: for each sub-command in order its
   * display when it was not typed, immediately followed by its own
   * recommendations; then the entries of the node's arguments.
   */
  function CollectOptional(c: Command): (r: seq<string>)
    ensures |ArgEntries(c.args)| <= |r|
    ensures r[|r| - |ArgEntries(c.args)|..] == ArgEntries(c.args)
    decreases Size(c), 1
  {
    SubEntries(c.subCommands) + ArgEntries(c.args)
  }

  /** What one sub-command contributes: its display when it was not typed, then its own recommendations. */
  function SubBlock(c: Command): (r: seq<string>)
    decreases Size(c), 2
  {
    (if !c.isPresent then [Display(c)] else []) + CollectOptional(c)
  }

  function SubEntries(cs: seq<Command>): (r: seq<string>)
    decreases SizeOf(cs), 3
  {
    if cs == [] then []
    else
      SubBlock(cs[0]) + SubEntries(cs[1..])
  }

  lemma {:induction false} SubEntriesAppend(a: seq<Command>, b: seq<Command>)
    ensures SubEntries(a + b) == SubEntries(a) + SubEntries(b)
  {
    if a == [] {
      assert a + b == b;
    } else {
      assert (a + b)[0] == a[0] && (a + b)[1..] == a[1..] + b;
      SubEntriesAppend(a[1..], b);
    }
  }

  /**
   * The order of the optional recommendations: the block of sub-command
   * `k` starts right after the blocks of the sub-commands before it; it
   * is the sub-command's display when it was not typed, immediately
   * followed by the sub-command's own recommendations; and the entries of
   * the node's arguments come after every block.
   */
  lemma CollectOptionalOrder(c: Command, k: nat)
    requires k < |c.subCommands|
    ensures var r, x, at := CollectOptional(c), c.subCommands[k], |SubEntries(c.subCommands[..k])|;
      var block := (if !x.isPresent then [Display(x)] else []) + CollectOptional(x);
      && |SubEntries(c.subCommands[..k + 1])| == at + |block| <= |SubEntries(c.subCommands)|
      && r[at..at + |block|] == block
    ensures CollectOptional(c)[|SubEntries(c.subCommands)|..] == ArgEntries(c.args)
  {
    var cs := c.subCommands;
    SubBlockAt(cs, k);
    var subs, b, at := SubEntries(cs), SubBlock(cs[k]), |SubEntries(cs[..k])|;
    assert CollectOptional(c) == subs + ArgEntries(c.args);
    AppendSlices(subs, ArgEntries(c.args), at, at + |b|);
  }

  /** Within the sub-command entries, the block of sub-command `k` follows the blocks before it. */
  lemma SubBlockAt(cs: seq<Command>, k: nat)
    requires k < |cs|
    ensures var at, b := |SubEntries(cs[..k])|, SubBlock(cs[k]);
      && |SubEntries(cs[..k + 1])| == at + |b| <= |SubEntries(cs)|
      && SubEntries(cs)[at..at + |b|] == b
  {
    var x := cs[k];
    assert cs[..k + 1] == cs[..k] + [x];
    assert cs == cs[..k] + [x] + cs[k + 1..];
    SubEntriesSplit(cs[..k], x, cs[k + 1..]);
    MiddleSlice(SubEntries(cs[..k]), SubBlock(x), SubEntries(cs[k + 1..]));
  }

  /** The sub-command entries split around the block of one sub-command `x`. */
  lemma SubEntriesSplit(pre: seq<Command>, x: Command, post: seq<Command>)
    ensures SubEntries(pre + [x]) == SubEntries(pre) + SubBlock(x)
    ensures SubEntries(pre + [x] + post) == SubEntries(pre + [x]) + SubEntries(post)
  {
    SubEntriesOne(x);
    SubEntriesAppend(pre, [x]);
    SubEntriesAppend(pre + [x], post);
  }

  lemma SubEntriesOne(x: Command)
    ensures SubEntries([x]) == SubBlock(x)
  {
    assert [x][1..] == [];
  }

  /** The displays of the sub-commands not typed, anywhere below the node, in pre-order. */
  function HiddenDisplays(c: Command): seq<string>
    decreases Size(c), 1
  {
    HiddenDisplaysIn(c.subCommands)
  }

  function HiddenDisplaysIn(cs: seq<Command>): seq<string>
    decreases SizeOf(cs), 2
  {
    if cs == [] then []
    else (if !cs[0].isPresent then [Display(cs[0])] else []) + HiddenDisplays(cs[0]) + HiddenDisplaysIn(cs[1..])
  }

  lemma {:induction false} ArgEntriesAppend(a: seq<Arg>, b: seq<Arg>)
    ensures ArgEntries(a + b) == ArgEntries(a) + ArgEntries(b)
  {
    if a == [] {
      assert a + b == b;
    } else {
      assert (a + b)[0] == a[0] && (a + b)[1..] == a[1..] + b;
      ArgEntriesAppend(a[1..], b);
    }
  }

  /**
   * The optional recommendations are, counted with multiplicity, the
   * displays of every sub-command not typed anywhere in the tree plus the
   * entries of every argument of the tree.
   */
  lemma {:induction false} CollectOptionalContents(c: Command)
    ensures multiset(CollectOptional(c)) == multiset(HiddenDisplays(c)) + multiset(ArgEntries(AllArgs(c)))
    decreases Size(c), 1
  {
    CollectOptionalContentsIn(c.subCommands);
    ArgEntriesAppend(c.args, AllArgsIn(c.subCommands));
  }

  lemma {:induction false} CollectOptionalContentsIn(cs: seq<Command>)
    ensures multiset(SubEntries(cs)) == multiset(HiddenDisplaysIn(cs)) + multiset(ArgEntries(AllArgsIn(cs)))
    decreases SizeOf(cs), 2
  {
    if cs != [] {
      CollectOptionalContents(cs[0]);
      CollectOptionalContentsIn(cs[1..]);
      ArgEntriesAppend(AllArgs(cs[0]), AllArgsIn(cs[1..]));
    }
  }
}
