/**
 * What the pruned tree looks like (prune.go:5-129): which arguments and
 * sub-commands survive, that survivors keep their order, that typed
 * siblings exclude the others, and that pruning a second time with the
 * same words changes nothing.
 */
module PruneFacts {
  import opened Wrappers
  import opened Seqs
  import opened CommandTree
  import opened Prune

  // ---------------------------------------------------------------------
  // Arguments
  // ---------------------------------------------------------------------

  /** Marking changes only the flag, so it does not change whether an argument is consumed. */
  lemma MarkArgKeepsConsumed(a: Arg, words: seq<string>)
    ensures ArgConsumed(MarkArg(a, words), words) == ArgConsumed(a, words)
  {
    var m := MarkArg(a, words);
    assert m.shortName == a.shortName && m.longName == a.longName && m.opts == a.opts;
  }

  /**
   * The fate of one argument in `pruneArguments`: a consumed one is gone;
   * a typed one that is not consumed stays, marked present; one that was
   * not typed stays unchanged. Whatever stays is unconsumed, and present
   * whenever it was typed.
   */
  lemma ArgFate(c: Command, words: seq<string>, b: Arg)
    requires b in c.args
    ensures ArgConsumed(b, words) ==> MarkArg(b, words) !in ArgsPruned(c, words).args
    ensures ArgNamed(b, words) && !ArgConsumed(b, words) ==> b.(isPresent := true) in ArgsPruned(c, words).args
    ensures !ArgNamed(b, words) ==> b in ArgsPruned(c, words).args
    ensures forall a :: a in ArgsPruned(c, words).args ==>
      !ArgConsumed(a, words) && (ArgNamed(a, words) ==> a.isPresent)
  {
    ArgsPrunedMembers(c, words);
    MarkArgKeepsConsumed(b, words);
    forall a | a in ArgsPruned(c, words).args
      ensures ArgNamed(a, words) ==> a.isPresent
    {
      var b' :| b' in c.args && a == MarkArg(b', words) && !ArgConsumed(b', words);
      assert a.shortName == b'.shortName && a.longName == b'.longName;
    }
  }

  /** The argument pass is idempotent: a second pass over its result changes nothing. */
  lemma ArgsPrunedTwice(c: Command, words: seq<string>)
    ensures ArgsPruned(ArgsPruned(c, words), words) == ArgsPruned(c, words)
  {
    var kept := ArgsPruned(c, words).args;
    forall a | a in kept
      ensures MarkArg(a, words) == a && ArgKept(words)(a)
    {
      ArgFate(c, words, c.args[0]);
    }
    assert MarkArgs(kept, words) == kept;
    FilterAll(kept, ArgKept(words));
  }

  // ---------------------------------------------------------------------
  // Sub-commands
  // ---------------------------------------------------------------------

  /** The pruned list is the pruned copy of each command, and nothing else. */
  lemma MapPrunedMembers(s: seq<Command>, words: seq<string>)
    ensures forall x :: x in MapPruned(s, words) <==> exists y :: y in s && x == Pruned(y, words)
  {
    forall x | x in MapPruned(s, words)
      ensures exists y :: y in s && x == Pruned(y, words)
    {
      var j :| 0 <= j < |s| && MapPruned(s, words)[j] == x;
      MapPrunedIndex(s, words, j);
    }
    forall y | y in s
      ensures Pruned(y, words) in MapPruned(s, words)
    {
      var j :| 0 <= j < |s| && s[j] == y;
      MapPrunedIndex(s, words, j);
    }
  }

  /**
   * Sibling exclusivity: when exactly one sibling was typed and the
   * siblings' uuids are distinct, the sibling pass leaves that one
   * sibling alone, marked present.
   */
  lemma SiblingExclusive(cs: seq<Command>, words: seq<string>, k: nat)
    requires k < |cs| && Invoked(cs[k], words)
    requires forall j :: 0 <= j < |cs| && j != k ==> !Invoked(cs[j], words)
    requires forall i, j :: 0 <= i < j < |cs| ==> cs[i].uuid != cs[j].uuid
    ensures SiblingPass(cs, words) == [cs[k].(isPresent := true)]
  {
    var p := SameUuid(cs[k].uuid);
    var marked := cs[k := cs[k].(isPresent := true)];
    assert FirstInvoked(cs, words) == Some(k);
    assert marked == marked[..k] + [marked[k]] + marked[k + 1..];
    FilterAppend(marked[..k] + [marked[k]], marked[k + 1..], p);
    FilterAppend(marked[..k], [marked[k]], p);
    assert forall x :: x in marked[..k] ==> !p(x);
    FilterNone(marked[..k], p);
    assert forall x :: x in marked[k + 1..] ==> !p(x);
    FilterNone(marked[k + 1..], p);
    assert Filter([marked[k]], p) == [marked[k]] + Filter([], p);
  }

  /** When no sibling was typed the sibling pass changes nothing. */
  lemma SiblingPassUntyped(cs: seq<Command>, words: seq<string>)
    requires forall j :: 0 <= j < |cs| ==> !Invoked(cs[j], words)
    ensures SiblingPass(cs, words) == cs
  {
    assert FirstInvoked(cs, words) == None;
  }

  /**
   * After `pruneSubCommands` the sub-commands are exactly the pruned
   * sibling-pass survivors that are not consumed; in particular no typed
   * leaf is left.
   */
  lemma SubsPrunedMembers(c: Command, words: seq<string>)
    ensures forall x :: x in SubsPruned(c, words).subCommands <==>
      (exists y :: y in SiblingPass(c.subCommands, words) && x == Pruned(y, words)) && !Consumed(x)
  {
    MapPrunedMembers(SiblingPass(c.subCommands, words), words);
  }

  /** The removal passes only delete: survivors keep their relative order, nothing is added. */
  lemma PrunedKeepsOrder(c: Command, words: seq<string>)
    ensures IsSubsequence(Pruned(c, words).args, MarkArgs(c.args, words))
    ensures IsSubsequence(Pruned(c, words).subCommands, MapPruned(SiblingPass(c.subCommands, words), words))
  {
    FilterIsSubsequence(MarkArgs(c.args, words), ArgKept(words));
    FilterIsSubsequence(MapPruned(SiblingPass(c.subCommands, words), words), SubKept());
  }

  /** No sub-command anywhere below `c` is consumed (typed, with nothing left below it). */
  ghost predicate NoConsumedBelow(c: Command)
    decreases Size(c)
  {
    forall sub :: sub in c.subCommands ==> (SizeMember(c.subCommands, sub); !Consumed(sub) && NoConsumedBelow(sub))
  }

  /** After pruning, no used-up sub-command remains at any depth of the tree. */
  lemma {:induction false} NoConsumedAfterPruning(c: Command, words: seq<string>)
    ensures NoConsumedBelow(Pruned(c, words))
    decreases Size(c)
  {
    var pass := SiblingPass(c.subCommands, words);
    PrunedLists(c, words);
    MapPrunedMembers(pass, words);
    forall x | x in Pruned(c, words).subCommands
      ensures !Consumed(x) && NoConsumedBelow(x)
    {
      var y :| y in pass && x == Pruned(y, words);
      SizeMember(pass, y);
      NoConsumedAfterPruning(y, words);
    }
  }

  /** Typed siblings exclude each other: with distinct uuids, at most one sub-command is left after pruning. */
  lemma AtMostOneSubAfterTyping(c: Command, words: seq<string>, k: nat)
    requires k < |c.subCommands| && Invoked(c.subCommands[k], words)
    requires forall j :: 0 <= j < |c.subCommands| && j != k ==> !Invoked(c.subCommands[j], words)
    requires forall i, j :: 0 <= i < j < |c.subCommands| ==> c.subCommands[i].uuid != c.subCommands[j].uuid
    ensures |Pruned(c, words).subCommands| <= 1
  {
    SiblingExclusive(c.subCommands, words, k);
    PrunedLists(c, words);
  }

  // ---------------------------------------------------------------------
  // Pruning twice
  // ---------------------------------------------------------------------

  /** A sibling list the sibling pass leaves alone: a typed member is present and shares its uuid with all. */
  ghost predicate Settled(ds: seq<Command>, words: seq<string>) {
    forall x, y :: x in ds && y in ds && Invoked(x, words) ==> x.isPresent && y.uuid == x.uuid
  }

  lemma SettledFixed(ds: seq<Command>, words: seq<string>)
    requires Settled(ds, words)
    ensures SiblingPass(ds, words) == ds
  {
    match FirstInvoked(ds, words)
    case None =>
    case Some(k) =>
      assert ds[k] in ds;
      assert ds[k := ds[k].(isPresent := true)] == ds;
      FilterAll(ds, SameUuid(ds[k].uuid));
  }

  lemma PassSettled(cs: seq<Command>, words: seq<string>)
    requires AtMostOneInvoked(cs, words)
    ensures Settled(SiblingPass(cs, words), words)
  {
    match FirstInvoked(cs, words)
    case None =>
    case Some(k) =>
      var marked := cs[k := cs[k].(isPresent := true)];
      forall x | x in SiblingPass(cs, words) && Invoked(x, words)
        ensures x.isPresent
      {
        var j :| 0 <= j < |marked| && marked[j] == x;
        assert j == k;
      }
  }

  lemma MapSettled(ds: seq<Command>, words: seq<string>)
    requires Settled(ds, words)
    ensures Settled(MapPruned(ds, words), words)
  {
    MapPrunedMembers(ds, words);
    forall x, y | x in MapPruned(ds, words) && y in MapPruned(ds, words) && Invoked(x, words)
      ensures x.isPresent && y.uuid == x.uuid
    {
      var x0 :| x0 in ds && x == Pruned(x0, words);
      var y0 :| y0 in ds && y == Pruned(y0, words);
      assert x.name == x0.name && x.aliases == x0.aliases;
    }
  }

  lemma SettledFilter(ds: seq<Command>, words: seq<string>, p: Command -> bool)
    requires Settled(ds, words)
    ensures Settled(Filter(ds, p), words)
  {
    assert forall x :: x in Filter(ds, p) ==> x in ds;
  }

  lemma {:induction false} MapPrunedFixed(ds: seq<Command>, words: seq<string>)
    requires forall x :: x in ds ==> Pruned(x, words) == x
    ensures MapPruned(ds, words) == ds
  {
    if ds != [] {
      assert ds[0] in ds && forall x :: x in ds[1..] ==> x in ds;
      MapPrunedFixed(ds[1..], words);
      assert MapPruned(ds, words) == [Pruned(ds[0], words)] + MapPruned(ds[1..], words);
      assert ds == [ds[0]] + ds[1..];
    }
  }

  /** The two lists of the pruned tree, spelled out. */
  lemma PrunedLists(c: Command, words: seq<string>)
    ensures Pruned(c, words).args == ArgsPruned(c, words).args
    ensures Pruned(c, words).subCommands == Filter(MapPruned(SiblingPass(c.subCommands, words), words), SubKept())
  {
    assert Pruned(c, words) == SubsPruned(ArgsPruned(c, words), words);
  }

  /** After the sub-command pass the sibling pass has nothing left to do. */
  lemma PrunedSubsSettled(c: Command, words: seq<string>)
    requires AtMostOneInvoked(c.subCommands, words)
    ensures var ds := Filter(MapPruned(SiblingPass(c.subCommands, words), words), SubKept());
      SiblingPass(ds, words) == ds
  {
    var pass := SiblingPass(c.subCommands, words);
    PassSettled(c.subCommands, words);
    MapSettled(pass, words);
    SettledFilter(MapPruned(pass, words), words, SubKept());
    SettledFixed(Filter(MapPruned(pass, words), SubKept()), words);
  }

  /**
   * Pruning is idempotent: pruning the pruned tree again with the same
   * words removes nothing further and marks nothing new.
   */
  lemma {:induction false} PrunedTwice(c: Command, words: seq<string>)
    requires Unambiguous(c, words)
    ensures Pruned(Pruned(c, words), words) == Pruned(c, words)
    decreases Size(c)
  {
    var c1 := Pruned(c, words);
    var pass := SiblingPass(c.subCommands, words);
    PrunedLists(c, words);
    PrunedLists(c1, words);
    ArgsPrunedTwice(c, words);
    PrunedSubsSettled(c, words);
    MapPrunedMembers(pass, words);
    forall x | x in c1.subCommands
      ensures Pruned(x, words) == x
    {
      var y :| y in pass && x == Pruned(y, words);
      PassMember(c, words, y);
      PrunedTwice(y, words);
    }
    MapPrunedFixed(c1.subCommands, words);
    FilterAll(c1.subCommands, SubKept());
  }

  // ---------------------------------------------------------------------
  // Staying unambiguous
  // ---------------------------------------------------------------------

  lemma {:induction false} AtMostOneFilter(s: seq<Command>, words: seq<string>, p: Command -> bool)
    requires AtMostOneInvoked(s, words)
    ensures AtMostOneInvoked(Filter(s, p), words)
  {
    if s != [] {
      var t := Filter(s[1..], p);
      assert AtMostOneInvoked(s[1..], words) by {
        forall j, k | 0 <= j < k < |s[1..]| && Invoked(s[1..][j], words)
          ensures !Invoked(s[1..][k], words)
        {
          assert s[1..][j] == s[j + 1] && s[1..][k] == s[k + 1];
        }
      }
      AtMostOneFilter(s[1..], words, p);
      if p(s[0]) {
        var r := [s[0]] + t;
        forall j, k | 0 <= j < k < |r| && Invoked(r[j], words)
          ensures !Invoked(r[k], words)
        {
          if j == 0 {
            assert r[k] in s[1..];
            var m :| 0 <= m < |s[1..]| && s[1..][m] == r[k];
            assert s[m + 1] == r[k];
          } else {
            assert r[j] == t[j - 1] && r[k] == t[k - 1];
          }
        }
      }
    }
  }

  lemma MapAtMostOne(s: seq<Command>, words: seq<string>)
    requires AtMostOneInvoked(s, words)
    ensures AtMostOneInvoked(MapPruned(s, words), words)
  {
    forall j | 0 <= j < |s|
      ensures Invoked(MapPruned(s, words)[j], words) == Invoked(s[j], words)
    {
      MapPrunedIndex(s, words, j);
      var x := MapPruned(s, words)[j];
      assert x.name == s[j].name && x.aliases == s[j].aliases;
    }
  }

  lemma PassAtMostOne(cs: seq<Command>, words: seq<string>)
    requires AtMostOneInvoked(cs, words)
    ensures AtMostOneInvoked(SiblingPass(cs, words), words)
  {
    match FirstInvoked(cs, words)
    case None =>
    case Some(k) =>
      var marked := cs[k := cs[k].(isPresent := true)];
      assert forall j :: 0 <= j < |cs| ==> Invoked(marked[j], words) == Invoked(cs[j], words);
      AtMostOneFilter(marked, words, SameUuid(cs[k].uuid));
  }

  /** The pruned tree can be pruned again: at most one typed sibling on every level it visits. */
  lemma {:induction false} PrunedStaysUnambiguous(c: Command, words: seq<string>)
    requires Unambiguous(c, words)
    ensures Unambiguous(Pruned(c, words), words)
    decreases Size(c)
  {
    var pass := SiblingPass(c.subCommands, words);
    var ds := Pruned(c, words).subCommands;
    PrunedLists(c, words);
    PassAtMostOne(c.subCommands, words);
    MapAtMostOne(pass, words);
    AtMostOneFilter(MapPruned(pass, words), words, SubKept());
    PrunedSubsSettled(c, words);
    MapPrunedMembers(pass, words);
    forall x | x in ds
      ensures Unambiguous(x, words)
    {
      var y :| y in pass && x == Pruned(y, words);
      PassMember(c, words, y);
      PrunedStaysUnambiguous(y, words);
    }
    UnambiguousIntro(Pruned(c, words), words);
  }

  /** The two conditions of `Unambiguous`, put together. */
  lemma UnambiguousIntro(c: Command, words: seq<string>)
    requires AtMostOneInvoked(c.subCommands, words)
    requires SiblingPass(c.subCommands, words) == c.subCommands
    requires forall x :: x in c.subCommands ==> Unambiguous(x, words)
    ensures Unambiguous(c, words)
  {
  }
}
