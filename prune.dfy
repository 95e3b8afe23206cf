/**
 * Pruning the command tree against the words already on the line
 * (prune.go:5-129): arguments that were typed are marked present and
 * removed once satisfied; among sibling sub-commands only the invoked one
 * survives; survivors are pruned recursively and removed once fully
 * consumed.
 *
 * The tree is a value: each method takes a command and returns its pruned
 * copy, as the Go code prunes a copy of each child and writes it back.
 * The methods follow the Go loops (collect indices, then delete from the
 * highest index down) and are proved equal to the specification functions
 * `ArgsPruned`, `SubsPruned` and `Pruned`, about which the lemmas speak.
 */
module Prune {
  import opened Wrappers
  import opened Seqs
  import opened CommandTree

  /** `contains`: whether `str` is one of the words. */
  function Contains(s: seq<string>, str: string): (r: bool)
    ensures r <==> str in s
  {
    if s == [] then false else s[0] == str || Contains(s[1..], str)
  }

  // ---------------------------------------------------------------------
  // Deleting collected indices
  // ---------------------------------------------------------------------

  /**
   * The deletion loop shared by the three removal passes: walk the
   * collected indices from the last (highest) to the first and cut each
   * element out. The result is `s` without exactly those indices.
   */
  method RemoveCollected<T>(s: seq<T>, removeIdx: seq<int>) returns (r: seq<T>)
    requires Increasing(removeIdx)
    requires forall t :: 0 <= t < |removeIdx| ==> 0 <= removeIdx[t] < |s|
    ensures r == Without(s, removeIdx, 0)
    ensures |r| == |s| - |removeIdx|
    ensures IsSubsequence(r, s)
  {
    r := s;
    var i := |removeIdx| - 1;
    while i >= 0
      invariant -1 <= i < |removeIdx| && RemovedAfter(s, removeIdx, i, r)
    {
      var idx := removeIdx[i];
      RemoveStep(s, removeIdx, i, r);
      CutBranches(r, idx);
      if |r| == 1 && idx == 0 {
        r := [];
      } else if idx == |r| - 1 {
        r := r[..idx];
      } else {
        r := r[..idx] + r[idx + 1..];
      }
      i := i - 1;
    }
    RemoveDone(s, removeIdx, r);
    WithoutIsSubsequence(s, removeIdx, 0);
  }

  /**
   * The loop invariant of `RemoveCollected`: the indices after position
   * `i` are deleted, and the prefix below the last one deleted is
   * untouched.
   */
  ghost predicate RemovedAfter<T>(s: seq<T>, removeIdx: seq<int>, i: int, r: seq<T>)
    requires -1 <= i < |removeIdx|
  {
    var lim := Limit(s, removeIdx, i);
    && 0 <= lim <= |s|
    && r == s[..lim] + Without(s[lim..], removeIdx, lim)
    && |r| == |s| - (|removeIdx| - 1 - i)
  }

  /** Go's three ways of cutting index `idx` out of `r` all leave the same sequence. */
  lemma CutBranches<T>(r: seq<T>, idx: int)
    requires 0 <= idx < |r|
    ensures |r| == 1 && idx == 0 ==> [] == r[..idx] + r[idx + 1..]
    ensures idx == |r| - 1 ==> r[..idx] == r[..idx] + r[idx + 1..]
  {
  }

  /** With every collected index deleted, the result is `s` without them, in order. */
  lemma RemoveDone<T>(s: seq<T>, removeIdx: seq<int>, r: seq<T>)
    requires Increasing(removeIdx)
    requires forall t :: 0 <= t < |removeIdx| ==> 0 <= removeIdx[t] < |s|
    requires RemovedAfter(s, removeIdx, -1, r)
    ensures r == Without(s, removeIdx, 0) && |r| == |s| - |removeIdx|
  {
    var lim := Limit(s, removeIdx, -1);
    assert forall t :: 0 <= t < |removeIdx| ==> lim <= removeIdx[t] by {
      if removeIdx != [] {
        assert lim == removeIdx[0];
      }
    }
    WithoutNone(s[..lim], removeIdx, 0);
    WithoutAppend(s[..lim], s[lim..], removeIdx, 0);
    assert s[..lim] + s[lim..] == s;
  }

  /** Where the untouched prefix ends once the indices after position `i` have been deleted. */
  function Limit<T>(s: seq<T>, removeIdx: seq<int>, i: int): int
    requires -1 <= i < |removeIdx|
  {
    if i + 1 == |removeIdx| then |s| else removeIdx[i + 1]
  }

  /** Deleting `removeIdx[i]` from the untouched prefix extends the deleted suffix by one index. */
  lemma RemoveStep<T>(s: seq<T>, removeIdx: seq<int>, i: nat, r: seq<T>)
    requires Increasing(removeIdx)
    requires forall t :: 0 <= t < |removeIdx| ==> 0 <= removeIdx[t] < |s|
    requires i < |removeIdx| && RemovedAfter(s, removeIdx, i, r)
    ensures removeIdx[i] < |r|
    ensures RemovedAfter(s, removeIdx, i - 1, r[..removeIdx[i]] + r[removeIdx[i] + 1..])
  {
    var idx, lim := removeIdx[i], Limit(s, removeIdx, i);
    var rest := Without(s[lim..], removeIdx, lim);
    if i + 1 < |removeIdx| {
      assert idx < removeIdx[i + 1];
    }
    GapFree(removeIdx, i, lim);
    WithoutNone(s[idx + 1..lim], removeIdx, idx + 1);
    WithoutDropAt(s, removeIdx, idx, lim);
    CutFromPrefix(s, idx, lim, rest);
  }

  /** Cutting index `idx` out of `s[..lim] + rest`, for `idx < lim`. */
  lemma CutFromPrefix<T>(s: seq<T>, idx: nat, lim: nat, rest: seq<T>)
    requires idx < lim <= |s|
    ensures var r := s[..lim] + rest; r[..idx] + r[idx + 1..] == s[..idx] + (s[idx + 1..lim] + rest)
  {
    var r := s[..lim] + rest;
    assert r[..idx] == s[..idx];
    assert r[idx + 1..] == s[idx + 1..lim] + rest;
  }

  /** No collected index lies strictly between `removeIdx[i]` and the limit. */
  lemma GapFree(removeIdx: seq<int>, i: nat, lim: int)
    requires Increasing(removeIdx) && i < |removeIdx|
    requires i + 1 < |removeIdx| ==> lim == removeIdx[i + 1]
    requires i + 1 == |removeIdx| ==> forall t :: 0 <= t < |removeIdx| ==> removeIdx[t] < lim
    ensures forall t :: 0 <= t < |removeIdx| ==> !(removeIdx[i] < removeIdx[t] < lim)
  {
    forall t | 0 <= t < |removeIdx|
      ensures !(removeIdx[i] < removeIdx[t] < lim)
    {
      if t <= i {
        assert t == i || removeIdx[t] < removeIdx[i];
      } else {
        assert t == i + 1 || removeIdx[i + 1] < removeIdx[t];
      }
    }
  }

  /** From a collected index `idx` on, the elements are those after it, split at `lim`. */
  lemma WithoutDropAt<T>(s: seq<T>, gone: seq<int>, idx: nat, lim: nat)
    requires idx < lim <= |s| && idx in gone
    ensures Without(s[idx..], gone, idx) == Without(s[idx + 1..lim], gone, idx + 1) + Without(s[lim..], gone, lim)
  {
    var t := s[idx..];
    assert t[1..] == s[idx + 1..lim] + s[lim..];
    WithoutAppend(s[idx + 1..lim], s[lim..], gone, idx + 1);
  }

  // ---------------------------------------------------------------------
  // Arguments
  // ---------------------------------------------------------------------

  /** The argument was typed: its short or long name is one of the words. */
  predicate ArgNamed(a: Arg, words: seq<string>) {
    a.shortName in words || a.longName in words
  }

  /** One of the argument's options was typed. */
  predicate OptSupplied(a: Arg, words: seq<string>) {
    exists o :: o in a.opts && o.name in words
  }

  /** A typed argument is used up when it takes no option or one of its options was typed. */
  predicate ArgConsumed(a: Arg, words: seq<string>) {
    ArgNamed(a, words) && (a.opts == [] || OptSupplied(a, words))
  }

  /** The arguments that survive the argument pass. */
  function ArgKept(words: seq<string>): Arg -> bool {
    (a: Arg) => !ArgConsumed(a, words)
  }

  /** A typed argument is marked present; any other keeps its flag. */
  function MarkArg(a: Arg, words: seq<string>): (r: Arg)
    ensures r == a.(isPresent := r.isPresent)
    ensures r.isPresent == (ArgNamed(a, words) || a.isPresent)
  {
    if ArgNamed(a, words) then a.(isPresent := true) else a
  }

  function MarkArgs(args: seq<Arg>, words: seq<string>): (r: seq<Arg>)
    ensures |r| == |args| && forall j :: 0 <= j < |args| ==> r[j] == MarkArg(args[j], words)
  {
    seq(|args|, j requires 0 <= j < |args| => MarkArg(args[j], words))
  }

  /** The command after `pruneArguments`: only its argument list changes. */
  function ArgsPruned(c: Command, words: seq<string>): (r: Command)
    ensures r == c.(args := r.args)
  {
    c.(args := Filter(MarkArgs(c.args, words), ArgKept(words)))
  }

  /**
   * The argument pass keeps exactly the marked copies of the arguments
   * that are not consumed: an argument that was not typed always stays.
   */
  lemma ArgsPrunedMembers(c: Command, words: seq<string>)
    ensures forall a :: a in ArgsPruned(c, words).args <==>
      exists b :: b in c.args && a == MarkArg(b, words) && !ArgConsumed(b, words)
  {
    var marked := MarkArgs(c.args, words);
    forall a | a in ArgsPruned(c, words).args
      ensures exists b :: b in c.args && a == MarkArg(b, words) && !ArgConsumed(b, words)
    {
      var j :| 0 <= j < |marked| && marked[j] == a;
      assert c.args[j] in c.args;
    }
    forall b | b in c.args && !ArgConsumed(b, words)
      ensures MarkArg(b, words) in ArgsPruned(c, words).args
    {
      var j :| 0 <= j < |c.args| && c.args[j] == b;
      assert marked[j] == MarkArg(b, words);
    }
  }

  /** `pruneArguments`: mark the typed arguments, collect the consumed ones, delete them. */
  method PruneArguments(cmd: Command, words: seq<string>) returns (res: Command)
    ensures res == ArgsPruned(cmd, words)
  {
    var args := cmd.args;
    var removeIdx: seq<int> := [];
    var i := 0;
    while i < |args|
      invariant 0 <= i <= |args| == |cmd.args|
      invariant forall j :: 0 <= j < |args| ==> args[j] == if j < i then MarkArg(cmd.args[j], words) else cmd.args[j]
      invariant Increasing(removeIdx)
      invariant forall t :: 0 <= t < |removeIdx| ==> 0 <= removeIdx[t] < i
      invariant forall j :: 0 <= j < i ==> (j in removeIdx <==> ArgConsumed(cmd.args[j], words))
    {
      var arg := args[i];
      if Contains(words, arg.shortName) || Contains(words, arg.longName) {
        arg := arg.(isPresent := true);
        args := args[i := arg];
        var shouldRemoveArg := false;
        if |arg.opts| == 0 {
          shouldRemoveArg := true;
        } else {
          shouldRemoveArg := true;
          var k := 0;
          while k < |arg.opts|
            invariant 0 <= k <= |arg.opts|
            invariant shouldRemoveArg <==> k == 0
            invariant forall m :: 0 <= m < k ==> arg.opts[m].name !in words
          {
            shouldRemoveArg := Contains(words, arg.opts[k].name);
            if shouldRemoveArg {
              break;
            }
            k := k + 1;
          }
        }
        assert shouldRemoveArg <==> ArgConsumed(cmd.args[i], words);
        if shouldRemoveArg {
          removeIdx := removeIdx + [i];
        }
      }
      i := i + 1;
    }
    assert args == MarkArgs(cmd.args, words);
    WithoutFilter(args, removeIdx, 0, ArgKept(words));
    args := RemoveCollected(args, removeIdx);
    res := cmd.(args := args);
  }

  // ---------------------------------------------------------------------
  // Sub-commands
  // ---------------------------------------------------------------------

  /** The sub-command was typed, by its name or by one of its aliases. */
  predicate Invoked(c: Command, words: seq<string>) {
    c.name in words || exists a :: a in c.aliases && a.name in words
  }

  /** The position of the first invoked command, if any. */
  function FirstInvoked(cs: seq<Command>, words: seq<string>): (r: Option<nat>)
    ensures r.Some? ==>
      && r.value < |cs| && Invoked(cs[r.value], words)
      && forall j :: 0 <= j < r.value ==> !Invoked(cs[j], words)
    ensures r.None? ==> forall j :: 0 <= j < |cs| ==> !Invoked(cs[j], words)
  {
    if cs == [] then None
    else if Invoked(cs[0], words) then Some(0)
    else match FirstInvoked(cs[1..], words)
      case None => None
      case Some(k) => Some(k + 1)
  }

  function SameUuid(uuid: string): Command -> bool {
    (c: Command) => c.uuid == uuid
  }

  /**
   * The first pass over the siblings: when a sibling was typed it is
   * marked present and every sibling with another uuid is deleted;
   * when none was typed the list is unchanged.
   */
  function SiblingPass(cs: seq<Command>, words: seq<string>): (r: seq<Command>)
    ensures SizeOf(r) <= SizeOf(cs)
  {
    match FirstInvoked(cs, words)
    case None => cs
    case Some(k) =>
      var marked := cs[k := cs[k].(isPresent := true)];
      SizeOfUpdate(cs, k, marked[k]);
      SizeOfFilter(marked, SameUuid(cs[k].uuid));
      Filter(marked, SameUuid(cs[k].uuid))
  }

  lemma SizeOfUpdate(cs: seq<Command>, k: nat, c: Command)
    requires k < |cs| && c.subCommands == cs[k].subCommands
    ensures SizeOf(cs[k := c]) == SizeOf(cs)
  {
    var ds := cs[k := c];
    assert cs == cs[..k] + [cs[k]] + cs[k + 1..];
    assert ds == cs[..k] + [c] + cs[k + 1..];
    SizeOfAppend(cs[..k] + [cs[k]], cs[k + 1..]);
    SizeOfAppend(cs[..k], [cs[k]]);
    SizeOfAppend(cs[..k] + [c], cs[k + 1..]);
    SizeOfAppend(cs[..k], [c]);
  }

  lemma {:induction false} SizeOfFilter(cs: seq<Command>, p: Command -> bool)
    ensures SizeOf(Filter(cs, p)) <= SizeOf(cs)
  {
    if cs != [] {
      SizeOfFilter(cs[1..], p);
      SizeOfAppend(if p(cs[0]) then [cs[0]] else [], Filter(cs[1..], p));
    }
  }

  /** A command is used up when it was typed and nothing is left below it. */
  predicate Consumed(c: Command) {
    c.isPresent && c.subCommands == [] && c.args == []
  }

  function SubKept(): Command -> bool {
    (c: Command) => !Consumed(c)
  }

  /** Each command of `s`, pruned. */
  function MapPruned(s: seq<Command>, words: seq<string>): (r: seq<Command>)
    ensures |r| == |s|
    decreases SizeOf(s), 3
  {
    if s == [] then [] else [Pruned(s[0], words)] + MapPruned(s[1..], words)
  }

  /** `pruneSubCommands`: the sibling pass, then every survivor pruned and dropped once consumed. */
  function SubsPruned(c: Command, words: seq<string>): (r: Command)
    ensures r == c.(subCommands := r.subCommands)
    decreases Size(c), 1
  {
    c.(subCommands := Filter(MapPruned(SiblingPass(c.subCommands, words), words), SubKept()))
  }

  /** `prune`: arguments first, then sub-commands. Only those two lists change. */
  function Pruned(c: Command, words: seq<string>): (r: Command)
    ensures r == c.(args := r.args, subCommands := r.subCommands)
    decreases Size(c), 2
  {
    SubsPruned(ArgsPruned(c, words), words)
  }

  lemma {:induction false} MapPrunedIndex(s: seq<Command>, words: seq<string>, j: nat)
    requires j < |s|
    ensures MapPruned(s, words)[j] == Pruned(s[j], words)
  {
    if j > 0 {
      MapPrunedIndex(s[1..], words, j - 1);
    }
  }

  /** At most one sibling is typed: the condition under which the Go removal loop stays in range. */
  ghost predicate AtMostOneInvoked(cs: seq<Command>, words: seq<string>) {
    forall j, k :: 0 <= j < k < |cs| && Invoked(cs[j], words) ==> !Invoked(cs[k], words)
  }

  /**
   * At most one typed sibling on every level the pruning visits: among
   * the node's sub-commands, and again inside each survivor of the
   * sibling pass (the siblings it deletes are never looked into).
   */
  ghost predicate Unambiguous(c: Command, words: seq<string>)
    decreases Size(c)
  {
    && AtMostOneInvoked(c.subCommands, words)
    && var pass := SiblingPass(c.subCommands, words);
      forall sub :: sub in pass ==> (SizeMember(pass, sub); Unambiguous(sub, words))
  }

  /** The first loop of `pruneSubCommands` leaves exactly the sibling pass once its indices are deleted. */
  lemma PhaseOne(cs: seq<Command>, words: seq<string>, subs: seq<Command>, removeIdx: seq<int>)
    requires AtMostOneInvoked(cs, words)
    requires |subs| == |cs|
    requires forall j :: 0 <= j < |cs| ==>
      subs[j] == if Invoked(cs[j], words) then cs[j].(isPresent := true) else cs[j]
    requires forall k :: 0 <= k < |cs| && Invoked(cs[k], words) ==>
      forall j :: 0 <= j < |subs| ==> (j in removeIdx <==> subs[j].uuid != cs[k].uuid)
    requires (forall k :: 0 <= k < |cs| ==> !Invoked(cs[k], words)) ==> removeIdx == []
    ensures Without(subs, removeIdx, 0) == SiblingPass(cs, words)
  {
    match FirstInvoked(cs, words)
    case None =>
      assert subs == cs;
      WithoutNone(subs, removeIdx, 0);
    case Some(k) =>
      assert subs == cs[k := cs[k].(isPresent := true)];
      WithoutFilter(subs, removeIdx, 0, SameUuid(cs[k].uuid));
  }

  /** The second loop of `pruneSubCommands` leaves the pruned survivors once its indices are deleted. */
  lemma PhaseTwo(pass: seq<Command>, words: seq<string>, subs: seq<Command>, removeIdx: seq<int>)
    requires |subs| == |pass|
    requires forall j :: 0 <= j < |pass| ==> (j in removeIdx <==> Consumed(MapPruned(pass, words)[j]))
    requires forall j :: 0 <= j < |pass| && j !in removeIdx ==> subs[j] == MapPruned(pass, words)[j]
    ensures Without(subs, removeIdx, 0) == Filter(MapPruned(pass, words), SubKept())
  {
    var all := MapPruned(pass, words);
    WithoutAgree(subs, all, removeIdx, 0);
    WithoutFilter(all, removeIdx, 0, SubKept());
  }

  /**
   * The first half of `pruneSubCommands`: mark the typed sibling, collect
   * the indices of the siblings with another uuid, delete them.
   */
  method PruneSiblings(cs: seq<Command>, words: seq<string>) returns (pass: seq<Command>)
    requires AtMostOneInvoked(cs, words)
    ensures pass == SiblingPass(cs, words)
  {
    var subs := cs;
    var removeIdx: seq<int> := [];
    var i := 0;
    while i < |subs|
      invariant 0 <= i <= |subs| == |cs|
      invariant forall j :: 0 <= j < |cs| ==>
        subs[j] == if j < i && Invoked(cs[j], words) then cs[j].(isPresent := true) else cs[j]
      invariant Increasing(removeIdx)
      invariant forall t :: 0 <= t < |removeIdx| ==> 0 <= removeIdx[t] < |subs|
      invariant forall k :: 0 <= k < i && Invoked(cs[k], words) ==>
        forall j :: 0 <= j < |subs| ==> (j in removeIdx <==> subs[j].uuid != cs[k].uuid)
      invariant (forall k :: 0 <= k < i ==> !Invoked(cs[k], words)) ==> removeIdx == []
    {
      var subCmd := subs[i];
      var present := Contains(words, subCmd.name);
      if !present {
        var a := 0;
        while a < |subCmd.aliases|
          invariant 0 <= a <= |subCmd.aliases|
          invariant forall m :: 0 <= m < a ==> subCmd.aliases[m].name !in words
        {
          if Contains(words, subCmd.aliases[a].name) {
            present := true;
            break;
          }
          a := a + 1;
        }
      }
      assert present <==> Invoked(cs[i], words);
      subCmd := subCmd.(isPresent := present);
      if present {
        subs := subs[i := subCmd];
        assert removeIdx == [];
        var j := 0;
        while j < |subs|
          invariant 0 <= j <= |subs|
          invariant Increasing(removeIdx)
          invariant forall t :: 0 <= t < |removeIdx| ==> 0 <= removeIdx[t] < j
          invariant forall x :: 0 <= x < j ==> (x in removeIdx <==> subs[x].uuid != subCmd.uuid)
        {
          if subCmd.uuid != subs[j].uuid {
            removeIdx := removeIdx + [j];
          }
          j := j + 1;
        }
      }
      i := i + 1;
    }
    PhaseOne(cs, words, subs, removeIdx);
    pass := RemoveCollected(subs, removeIdx);
  }

  /** `pruneSubCommands`, with the precondition that keeps its removal loops in range. */
  method PruneSubCommands(cmd: Command, words: seq<string>) returns (res: Command)
    requires Unambiguous(cmd, words)
    ensures res == SubsPruned(cmd, words)
    decreases Size(cmd), 1
  {
    var pass := PruneSiblings(cmd.subCommands, words);
    forall x | x in pass
      ensures Unambiguous(x, words) && Size(x) < Size(cmd)
    {
      PassMember(cmd, words, x);
    }
    var subs, removeIdx := PruneEach(pass, words);
    PhaseTwo(pass, words, subs, removeIdx);
    subs := RemoveCollected(subs, removeIdx);
    res := cmd.(subCommands := subs);
  }

  /**
   * The second loop of `pruneSubCommands`: prune every survivor, collect
   * the indices of those that end up consumed and write the others back.
   */
  method PruneEach(pass: seq<Command>, words: seq<string>) returns (subs: seq<Command>, removeIdx: seq<int>)
    requires forall x :: x in pass ==> Unambiguous(x, words)
    ensures |subs| == |pass|
    ensures Increasing(removeIdx) && forall t :: 0 <= t < |removeIdx| ==> 0 <= removeIdx[t] < |subs|
    ensures forall j :: 0 <= j < |pass| ==> (j in removeIdx <==> Consumed(MapPruned(pass, words)[j]))
    ensures forall j :: 0 <= j < |pass| && j !in removeIdx ==> subs[j] == MapPruned(pass, words)[j]
    decreases SizeOf(pass), 3
  {
    subs := pass;
    removeIdx := [];
    ghost var target := MapPruned(pass, words);
    var i := 0;
    while i < |subs|
      invariant EachDone(pass, target, i, subs, removeIdx)
      decreases |pass| - i
    {
      var subCmd := subs[i];
      SizeElem(pass, i);
      MapPrunedIndex(pass, words, i);
      subCmd := PruneWith(subCmd, words);
      EachStep(pass, target, i, subs, removeIdx, subCmd);
      if subCmd.isPresent && |subCmd.subCommands| == 0 && |subCmd.args| == 0 {
        removeIdx := removeIdx + [i];
      } else {
        subs := subs[i := subCmd];
      }
      i := i + 1;
    }
  }

  /**
   * The invariant of the loop in `PruneEach` after `i` survivors: those
   * are pruned and either written back or collected for deletion, exactly
   * when consumed; the others are untouched.
   */
  ghost predicate EachDone(pass: seq<Command>, target: seq<Command>, i: nat, subs: seq<Command>, removeIdx: seq<int>) {
    && i <= |subs| == |pass| == |target|
    && (forall j :: i <= j < |pass| ==> subs[j] == pass[j])
    && (forall j :: 0 <= j < i && j !in removeIdx ==> subs[j] == target[j])
    && Increasing(removeIdx)
    && (forall t :: 0 <= t < |removeIdx| ==> 0 <= removeIdx[t] < i)
    && (forall j :: 0 <= j < i ==> (j in removeIdx <==> Consumed(target[j])))
  }

  lemma EachStep(pass: seq<Command>, target: seq<Command>, i: nat, subs: seq<Command>, removeIdx: seq<int>, x: Command)
    requires EachDone(pass, target, i, subs, removeIdx) && i < |pass| && x == target[i]
    ensures Consumed(x) ==> EachDone(pass, target, i + 1, subs, removeIdx + [i])
    ensures !Consumed(x) ==> EachDone(pass, target, i + 1, subs[i := x], removeIdx)
  {
  }

  /** The body of `prune` for words already computed: arguments first, then sub-commands. */
  method PruneWith(cmd: Command, words: seq<string>) returns (res: Command)
    requires Unambiguous(cmd, words)
    ensures res == Pruned(cmd, words)
    decreases Size(cmd), 2
  {
    res := PruneArguments(cmd, words);
    res := PruneSubCommands(res, words);
  }

  /** A survivor of the sibling pass is a smaller tree, and unambiguous in turn. */
  lemma PassMember(c: Command, words: seq<string>, x: Command)
    requires Unambiguous(c, words) && x in SiblingPass(c.subCommands, words)
    ensures Unambiguous(x, words) && Size(x) < Size(c)
  {
    SizeMember(SiblingPass(c.subCommands, words), x);
  }

  lemma SizeMember(cs: seq<Command>, c: Command)
    requires c in cs
    ensures Size(c) <= SizeOf(cs)
  {
    var k :| 0 <= k < |cs| && cs[k] == c;
    SizeElem(cs, k);
  }
}
