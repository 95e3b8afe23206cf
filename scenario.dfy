/**
 * A small command tree worked through pruning and recommendation:
 * `deploy` with the sub-commands `service` (alias `svc`, argument
 * `--env`/`-e` taking `prod` or `dev`) and `database`.
 */
module Scenario {
  import opened Wrappers
  import opened Seqs
  import opened Input
  import opened CommandTree
  import opened Prune
  import opened Recommend

  const Env := Arg("a1", "c2", "OPTION", "target environment", "--env", "-e", false,
    [Opt("o1", "a1", "prod"), Opt("o2", "a1", "dev")])

  const Service := Command("c2", "service", Some("c1"), [Alias("l1", "c2", "svc")], [], [Env], false)

  const Database := Command("c3", "database", Some("c1"), [], [], [], false)

  const Deploy := Command("c1", "deploy", None, [], [Service, Database], [], false)

  /** With only the command name typed nothing is pruned. */
  lemma NothingTyped()
    ensures Pruned(Deploy, ["deploy"]) == Deploy
  {
    var w := ["deploy"];
    assert !ArgNamed(Env, w);
    assert MarkArgs([Env], w) == [Env];
    assert Filter([Env], ArgKept(w)) == [Env] + Filter([], ArgKept(w));
    assert ArgsPruned(Service, w) == Service;
    assert Pruned(Service, w) == Service;
    assert Pruned(Database, w) == Database;
    assert !Invoked(Service, w) && !Invoked(Database, w);
    assert FirstInvoked([Service, Database], w) == None;
    assert MapPruned([Service, Database], w) == [Service, Database];
    assert Filter([Service, Database], SubKept()) == [Service, Database];
    assert ArgsPruned(Deploy, w) == Deploy;
  }

  /** The display strings: the shortest alias in parentheses, and `long (short)` for an argument. */
  lemma Displays()
    ensures Display(Service) == "service (svc)" && Display(Database) == "database"
    ensures ArgDisplay(Env) == "--env (-e)"
  {
    assert ShortestAlias(Service.aliases) == "svc";
  }

  /**
   * No argument is being completed, so the optional entries are offered:
   * each sub-command's display followed by its own entries.
   */
  lemma OptionalWhenNothingTyped()
    ensures CollectRequired(Deploy, "deploy") == []
    ensures CollectOptional(Deploy) == ["service (svc)", "--env (-e)", "database"]
  {
    NoCurrentArgUntyped();
    UntypedBlocks();
    assert SubEntries([Database]) == SubBlock(Database) + SubEntries([]);
    assert SubEntries([Service, Database]) == SubBlock(Service) + SubEntries([Database]);
    assert CollectOptional(Deploy) == [Display(Service), ArgDisplay(Env), Display(Database)];
    Displays();
  }

  lemma NoCurrentArgUntyped()
    ensures GetCurrentArg(Deploy, "deploy") == None
  {
    assert GetCurrentArg(Service, "deploy") == None;
    assert GetCurrentArg(Database, "deploy") == None;
    assert GetCurrentArgIn([Database], "deploy") == None;
    assert GetCurrentArgIn(Deploy.subCommands, "deploy") == None;
  }

  /** Each untyped sub-command's block: its display, then its own entries. */
  lemma UntypedBlocks()
    ensures SubBlock(Service) == [Display(Service), ArgDisplay(Env)]
    ensures SubBlock(Database) == [Display(Database)]
  {
    ServiceEntries();
    assert CollectOptional(Database) == SubEntries([]) + ArgEntries([]);
  }

  lemma ServiceEntries()
    ensures CollectOptional(Service) == [ArgDisplay(Env)]
  {
    assert ArgEntry(Env) == [ArgDisplay(Env)];
    assert ArgEntries([Env]) == ArgEntry(Env) + ArgEntries([]);
    assert CollectOptional(Service) == SubEntries([]) + ArgEntries([Env]);
  }

  /** The tree once `service --env` is typed: `database` is gone, `service` and `--env` are marked. */
  const Typed := Deploy.(subCommands := [Service.(isPresent := true, args := [Env.(isPresent := true)])])

  lemma TypedServicePruned(w: seq<string>)
    requires w == ["deploy", "service", "--env"]
    ensures Pruned(Service.(isPresent := true), w) == Typed.subCommands[0]
  {
    var env := Env.(isPresent := true);
    assert ArgNamed(Env, w) && !OptSupplied(Env, w);
    assert MarkArgs([Env], w) == [env];
    assert Filter([env], ArgKept(w)) == [env] + Filter([], ArgKept(w));
  }

  lemma TypedSiblingPass(w: seq<string>)
    requires w == ["deploy", "service", "--env"]
    ensures SiblingPass(Deploy.subCommands, w) == [Service.(isPresent := true)]
  {
    assert Invoked(Service, w) && !Invoked(Database, w);
    assert FirstInvoked([Service, Database], w) == Some(0);
    assert Filter([Service.(isPresent := true), Database], SameUuid("c2")) == [Service.(isPresent := true)];
  }

  /** Typing a sub-command removes its sibling; an argument still waiting for an option stays. */
  lemma ServiceTyped()
    ensures Pruned(Deploy, ["deploy", "service", "--env"]) == Typed
  {
    var w := ["deploy", "service", "--env"];
    var service := Service.(isPresent := true);
    TypedServicePruned(w);
    TypedSiblingPass(w);
    assert MapPruned([service], w) == Typed.subCommands;
    assert Filter(Typed.subCommands, SubKept()) == Typed.subCommands + Filter([], SubKept());
    assert ArgsPruned(Deploy, w) == Deploy;
  }

  /** Completing `--env` offers its options, in order. */
  lemma RequiredWhenArgTyped()
    ensures CollectRequired(Typed, "--env") == ["prod", "dev"]
  {
    var env := Env.(isPresent := true);
    assert FindArg(Typed.args, "--env") == None;
    assert IsCurrent(env, "--env");
    assert GetCurrentArg(Typed.subCommands[0], "--env") == Some(env);
    assert GetCurrentArgIn(Typed.subCommands, "--env") == Some(env);
    assert OptNames(env.opts) == ["prod", "dev"];
  }

  /**
   * From the line to the recommendation: the words of `deploy service
   * --env ` prune the example tree to `Typed`, and with the cursor at the
   * end of the line the current word `--env` is completed with its options.
   */
  lemma DeployLineRecommends()
    ensures Tokens(DeployLine, BashMaxLineSize) == ["deploy", "service", "--env"]
    ensures Pruned(Deploy, Tokens(DeployLine, BashMaxLineSize)) == Typed
    ensures CurrentWord(DeployLine, |DeployLine|) == Some("--env")
    ensures CollectRequired(Pruned(Deploy, Tokens(DeployLine, BashMaxLineSize)), CurrentWord(DeployLine, |DeployLine|).value) == ["prod", "dev"]
  {
    DeployLineShape(DeployLine);
    ExampleDeployLine(DeployLine);
    SameProcessedSameTokens(DeployLine, 21, BashMaxLineSize, 21);
    ServiceTyped();
    RequiredWhenArgTyped();
  }

  // A second tree, `tool` with the sub-commands `a` (child `x`) and `b`
  // (children `x` and `y`), typed as `tool a x y`.

  const LeafX := Command("t3", "x", Some("t1"), [], [], [], false)

  const BranchA := Command("t1", "a", Some("t0"), [], [LeafX], [], false)

  const BranchB := Command("t2", "b", Some("t0"), [], [LeafX.(uuid := "t4", parentUuid := Some("t2")),
    Command("t5", "y", Some("t2"), [], [], [], false)], [], false)

  const Tool := Command("t0", "tool", None, [], [BranchA, BranchB], [], false)

  lemma ToolSiblingPasses(w: seq<string>)
    requires w == ["tool", "a", "x", "y"]
    ensures SiblingPass(Tool.subCommands, w) == [BranchA.(isPresent := true)]
    ensures SiblingPass(BranchA.subCommands, w) == [LeafX.(isPresent := true)]
  {
    assert Invoked(BranchA, w) && !Invoked(BranchB, w) && Invoked(LeafX, w);
    assert FirstInvoked(Tool.subCommands, w) == Some(0);
    assert FirstInvoked(BranchA.subCommands, w) == Some(0);
    assert Filter([BranchA.(isPresent := true), BranchB], SameUuid("t1")) == [BranchA.(isPresent := true)];
    assert Filter([LeafX.(isPresent := true)], SameUuid("t3")) == [LeafX.(isPresent := true)];
  }

  /**
   * Two typed children below `b` do not matter: the sibling pass deletes
   * `b` before its children are looked at, so the tree can be pruned.
   */
  lemma DeletedSiblingNotInspected()
    ensures !AtMostOneInvoked(BranchB.subCommands, ["tool", "a", "x", "y"])
    ensures Unambiguous(Tool, ["tool", "a", "x", "y"])
  {
    var w := ["tool", "a", "x", "y"];
    assert Invoked(BranchB.subCommands[0], w) && Invoked(BranchB.subCommands[1], w);
    ToolSiblingPasses(w);
    var a, x := BranchA.(isPresent := true), LeafX.(isPresent := true);
    assert Unambiguous(x, w);
    assert AtMostOneInvoked(a.subCommands, w);
    assert Unambiguous(a, w);
    assert AtMostOneInvoked(Tool.subCommands, w);
  }
}
