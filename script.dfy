/**
 * The BayesTraits control script: menu answers for the method and the
 * analysis mode, an optional single-rate restriction, one `AddMRCA` command
 * per tip naming the tip's parent by the tips below it, and `run`.
 */
module Script {
  import opened Wrappers
  import opened Text
  import opened Tree

  /** Python's ValueError with its message. */
  datatype ScriptError = ValueError(message: string)

  const ScriptHeader := "#BayesTraits script (autogenerated)"
  const MethodMenu := "#Select method.  methods are:"
    + "\n" + "    #1)      MultiState. "
    + "\n" + "    #2)      Discrete: Independent model "
    + "\n" + "    #3)      Discrete: Dependent model "
    + "\n" + "    #4)      Continuous: Random Walk (Model A) "
    + "\n" + "    #5)      Continuous: Directional (Model B) "
    + "\n" + "    #6)      Continuous: Regression "
  const AnalysisMenu := "#Select the analysis method to use. "
    + "\n" + "        #1)      Maximum Likelihood. "
    + "\n" + "        #2)      MCMC"
  const RestrictComment := "#Restrict to a single rate"
  const RestrictCommand := "RestrictAll q01"
  const ReconstructComment := "#Reconstruct parent nodes for each tip"
  const AddNodesComment := "#Add nodes to analyze\n"
  const RunCommand := "run"

  const MethodNumbers: map<string, string> := map[
    "multistate" := "1",
    "discrete_independent" := "2",
    "discrete_dependent" := "3",
    "continuous_random_walk" := "4",
    "continuous_directional" := "5",
    "continuous_regression" := "6"]

  const AnalysisNumbers: map<string, string> := map["ml" := "1", "mcmc" := "2"]

  /** `translation_dict.get(s, s)` */
  function Translate(table: map<string, string>, name: string): string {
    if name in table then table[name] else name
  }

  function TranslateAll(table: map<string, string>, names: seq<string>): (r: seq<string>)
    ensures |r| == |names|
    ensures forall i :: 0 <= i < |r| ==> r[i] == Translate(table, names[i])
  {
    if names == [] then [] else [Translate(table, names[0])] + TranslateAll(table, names[1..])
  }

  function AncestorName(tip: Node): string {
    "parent_of_" + tip.name
  }

  /** `"AddMRCA %s %s\n" % (ancestor, " ".join(names))` */
  function AddMrcaLine(ancestor: string, names: seq<string>): string {
    "AddMRCA " + ancestor + " " + Join(names, " ") + "\n"
  }

  /** The command for one tip: its parent named after it, and the translated leaves of that parent. */
  function CommandFor(t: TipAt, table: map<string, string>): Result<string, ScriptError> {
    var names := TranslateAll(table, LeafNamesOf(t.parent.children));
    if names == [] then Failure(ValueError("No sibling names found!"))
    else Success(AddMrcaLine(AncestorName(t.tip), names))
  }

  function CommandsFrom(tips: seq<TipAt>, table: map<string, string>, k: nat, acc: seq<string>): Result<seq<string>, ScriptError>
    requires k <= |tips|
    decreases |tips| - k
  {
    if k == |tips| then Success(acc)
    else
      var c :- CommandFor(tips[k], table);
      CommandsFrom(tips, table, k + 1, acc + [c])
  }

  /** `get_bt_addmrca_commands(tree, translation_dict)` */
  function AddMrcaCommands(tree: Node, table: map<string, string>): Result<seq<string>, ScriptError> {
    CommandsFrom(TipsWithParents(tree), table, 0, [AddNodesComment])
  }

  lemma {:induction false} CommandsFromSucceeds(tips: seq<TipAt>, table: map<string, string>, k: nat, acc: seq<string>)
    requires k <= |tips|
    requires forall j :: 0 <= j < |tips| ==> WellPlaced(tips[j])
    ensures CommandsFrom(tips, table, k, acc).Success?
    ensures var r := CommandsFrom(tips, table, k, acc).value;
      && |r| == |acc| + |tips| - k
      && r[..|acc|] == acc
      && forall j :: k <= j < |tips| ==>
           r[|acc| + j - k] == AddMrcaLine(AncestorName(tips[j].tip), TranslateAll(table, LeafNamesOf(tips[j].parent.children)))
    decreases |tips| - k
  {
    if k < |tips| {
      var names := TranslateAll(table, LeafNamesOf(tips[k].parent.children));
      TipNamedAmongArguments(tips[k], table);
      var c := AddMrcaLine(AncestorName(tips[k].tip), names);
      assert CommandFor(tips[k], table) == Success(c);
      var acc' := acc + [c];
      CommandsFromSucceeds(tips, table, k + 1, acc');
      var r := CommandsFrom(tips, table, k + 1, acc').value;
      assert r[..|acc|] == r[..|acc'|][..|acc|];
      assert r[|acc|] == r[..|acc'|][|acc|];
      forall j | k < j < |tips|
        ensures r[|acc| + j - k] == AddMrcaLine(AncestorName(tips[j].tip), TranslateAll(table, LeafNamesOf(tips[j].parent.children)))
      {
        assert |acc'| + j - (k + 1) == |acc| + j - k;
      }
    }
  }

  /**
   * The first command is the "#Add nodes to analyze" line, followed by
   * exactly one `AddMRCA parent_of_<tip> ...` per tip, tips left to right.
   * Each tip's argument list is the translated leaves of its parent, and it
   * includes the tip's own translated name, so "No sibling names found!"
   * is never raised.
   */
  lemma AddMrcaCommandsSpec(tree: Node, table: map<string, string>)
    ensures AddMrcaCommands(tree, table).Success?
    ensures var r := AddMrcaCommands(tree, table).value;
      var tips := TipsWithParents(tree);
      && |r| == 1 + |tips|
      && r[0] == AddNodesComment
      && TipNames(tips) == (if IsTip(tree) then [] else LeafNames(tree))
      && forall k :: 0 <= k < |tips| ==>
           && r[k + 1] == AddMrcaLine(AncestorName(tips[k].tip), TranslateAll(table, LeafNamesOf(tips[k].parent.children)))
           && Translate(table, tips[k].tip.name) in TranslateAll(table, LeafNamesOf(tips[k].parent.children))
  {
    var tips := TipsWithParents(tree);
    AddMrcaCommandsLines(tree, table);
    TipsWithParentsSpec(tree);
    forall k | 0 <= k < |tips|
      ensures Translate(table, tips[k].tip.name) in TranslateAll(table, LeafNamesOf(tips[k].parent.children))
    {
      TipNamedAmongArguments(tips[k], table);
    }
  }

  lemma AddMrcaCommandsLines(tree: Node, table: map<string, string>)
    ensures AddMrcaCommands(tree, table).Success?
    ensures var r := AddMrcaCommands(tree, table).value;
      var tips := TipsWithParents(tree);
      && |r| == 1 + |tips|
      && r[0] == AddNodesComment
      && forall k :: 0 <= k < |tips| ==>
           r[k + 1] == AddMrcaLine(AncestorName(tips[k].tip), TranslateAll(table, LeafNamesOf(tips[k].parent.children)))
  {
    var tips := TipsWithParents(tree);
    TipsWellPlaced(tree);
    var acc := [AddNodesComment];
    CommandsFromSucceeds(tips, table, 0, acc);
    var r := AddMrcaCommands(tree, table).value;
    assert r[..|acc|] == acc;
    forall k | 0 <= k < |tips|
      ensures r[k + 1] == AddMrcaLine(AncestorName(tips[k].tip), TranslateAll(table, LeafNamesOf(tips[k].parent.children)))
    {
      assert k + 1 == |acc| + k - 0;
    }
  }

  /** A well-placed tip's translated name is among the translated leaves of its parent. */
  lemma TipNamedAmongArguments(t: TipAt, table: map<string, string>)
    requires WellPlaced(t)
    ensures Translate(table, t.tip.name) in TranslateAll(table, LeafNamesOf(t.parent.children))
  {
    TipAmongParentLeaves(t);
    TranslatedMember(table, LeafNamesOf(t.parent.children), t.tip.name);
  }

  lemma TranslatedMember(table: map<string, string>, names: seq<string>, x: string)
    requires x in names
    ensures Translate(table, x) in TranslateAll(table, names)
  {
    var i :| 0 <= i < |names| && names[i] == x;
    assert TranslateAll(table, names)[i] == Translate(table, x);
  }

  /**
   * The middle loop of `get_bt_addmrca_commands`, over the child groups of
   * one parent: every group's entries add their names in turn.
   */
  method CollectSiblingNames(groups: seq<seq<Node>>) returns (siblingNames: seq<string>)
    ensures siblingNames == GroupNames(groups)
  {
    siblingNames := [];
    for g := 0 to |groups|
      invariant siblingNames == GroupNames(groups[..g])
    {
      GroupNamesSnoc(groups, g);
      siblingNames := AppendEntryNames(siblingNames, groups[g]);
    }
    assert groups[..|groups|] == groups;
  }

  /**
   * The innermost loop, over the entries of one group, appending to
   * `sibling_names`: a tip entry adds its own name, an internal entry the
   * names of all tips below it.
   */
  method AppendEntryNames(names: seq<string>, group: seq<Node>) returns (siblingNames: seq<string>)
    ensures siblingNames == names + EntriesNames(group)
  {
    siblingNames := names;
    for e := 0 to |group|
      invariant siblingNames == names + EntriesNames(group[..e])
    {
      var entry := group[e];
      EntriesNamesSnoc(group, e);
      if IsTip(entry) {
        siblingNames := siblingNames + [entry.name];
      } else {
        siblingNames := siblingNames + LeafNames(entry);
      }
    }
    assert group[..|group|] == group;
  }

  /** `get_bt_addmrca_commands`, as the loop over tips and child groups it is. */
  method GetAddMrcaCommands(tree: Node, table: map<string, string>) returns (r: Result<seq<string>, ScriptError>)
    ensures r == AddMrcaCommands(tree, table)
  {
    var commands := [AddNodesComment];
    var tips := TipsWithParents(tree);
    var k := 0;
    while k < |tips|
      invariant 0 <= k <= |tips|
      invariant AddMrcaCommands(tree, table) == CommandsFrom(tips, table, k, commands)
    {
      var tip := tips[k].tip;
      var ancestor := "parent_of_" + tip.name;
      var groups := ChildGroups(tips[k].parent.children);
      ChildGroupsFlatten(tips[k].parent.children);
      var siblingNames := CollectSiblingNames(groups);
      SiblingNamesOfAnySplit(groups, tips[k].parent.children);
      var translated := TranslateAll(table, siblingNames);
      assert CommandFor(tips[k], table)
          == if translated == [] then Failure(ValueError("No sibling names found!"))
             else Success(AddMrcaLine(ancestor, translated));
      if translated == [] {
        return Failure(ValueError("No sibling names found!"));
      }
      commands := commands + [AddMrcaLine(ancestor, translated)];
      k := k + 1;
    }
    r := Success(commands);
  }

  /** The lines ahead of the AddMRCA block, before each gets its newline. */
  function Preamble(methodNumber: string, analysisNumber: string, comments: bool, singleRate: bool): seq<string> {
    (if comments then [ScriptHeader, MethodMenu] else [])
    + [methodNumber]
    + (if comments then [AnalysisMenu] else [])
    + [analysisNumber]
    + (if singleRate then (if comments then [RestrictComment] else []) + [RestrictCommand] else [])
    + (if comments then [ReconstructComment] else [])
  }

  /** `make_bayestraits_script(tree, translation_dict, method, analysis_method, comments, single_rate)` */
  function MakeScript(tree: Node, table: map<string, string>, methodName: string, analysisName: string,
                      comments: bool, singleRate: bool): Result<seq<string>, ScriptError>
  {
    if methodName !in MethodNumbers then Failure(ValueError("method not supported"))
    else if analysisName !in AnalysisNumbers then Failure(ValueError("analysis method not supported"))
    else
      var mrca :- AddMrcaCommands(tree, table);
      Success(Terminated(Preamble(MethodNumbers[methodName], AnalysisNumbers[analysisName], comments, singleRate)
                         + mrca + [RunCommand]))
  }

  /** `make_bayestraits_script`, appending to the script step by step. */
  method MakeBayesTraitsScript(tree: Node, table: map<string, string>, methodName: string, analysisName: string,
                               comments: bool, singleRate: bool) returns (r: Result<seq<string>, ScriptError>)
    ensures r == MakeScript(tree, table, methodName, analysisName, comments, singleRate)
  {
    var scriptLines: seq<string> := [];
    if comments {
      scriptLines := scriptLines + [ScriptHeader, MethodMenu];
    }
    if methodName !in MethodNumbers {
      return Failure(ValueError("method not supported"));
    }
    var methodNumber := MethodNumbers[methodName];
    scriptLines := scriptLines + [methodNumber];
    if comments {
      scriptLines := scriptLines + [AnalysisMenu];
    }
    if analysisName !in AnalysisNumbers {
      return Failure(ValueError("analysis method not supported"));
    }
    var analysisNumber := AnalysisNumbers[analysisName];
    scriptLines := scriptLines + [analysisNumber];
    if singleRate {
      if comments {
        scriptLines := scriptLines + [RestrictComment];
      }
      scriptLines := scriptLines + [RestrictCommand];
    }
    if comments {
      scriptLines := scriptLines + [ReconstructComment];
    }
    assert scriptLines == Preamble(methodNumber, analysisNumber, comments, singleRate);
    var addMrca := GetAddMrcaCommands(tree, table);
    if addMrca.Failure? {
      return Failure(addMrca.error);
    }
    scriptLines := scriptLines + addMrca.value;
    scriptLines := scriptLines + [RunCommand];
    r := Success(Terminated(scriptLines));
  }

  /**
   * A comment entry that only a `comments=True` script has: it starts with
   * '#' and is not the "#Add nodes to analyze" line, which both scripts have.
   */
  predicate IsPromptComment(line: string) {
    |line| > 1 && line[0] == '#' && line[1] != 'A'
  }

  /** An entry a `comments=False` script keeps; `Filter` takes it as the function value for the complement of `IsPromptComment`. */
  predicate KeptWithoutComments(line: string) {
    !IsPromptComment(line)
  }

  /**
   * An unknown method raises "method not supported" and, for a known
   * method, an unknown analysis method raises "analysis method not
   * supported"; with both known a script is always returned.
   */
  lemma MakeScriptOutcome(tree: Node, table: map<string, string>, methodName: string, analysisName: string,
                          comments: bool, singleRate: bool)
    ensures var r := MakeScript(tree, table, methodName, analysisName, comments, singleRate);
      && (methodName !in MethodNumbers ==> r == Failure(ValueError("method not supported")))
      && (methodName in MethodNumbers && analysisName !in AnalysisNumbers ==>
            r == Failure(ValueError("analysis method not supported")))
      && (r.Success? <==> methodName in MethodNumbers && analysisName in AnalysisNumbers)
  {
    AddMrcaCommandsSpec(tree, table);
  }

  /** The menu answers are the single digits "1" to "6" and "1" or "2". */
  lemma MenuAnswers(methodName: string, analysisName: string)
    ensures methodName in MethodNumbers ==> MethodNumbers[methodName] in {"1", "2", "3", "4", "5", "6"}
    ensures analysisName in AnalysisNumbers ==> AnalysisNumbers[analysisName] in {"1", "2"}
    ensures methodName in MethodNumbers ==> |MethodNumbers[methodName]| == 1 && MethodNumbers[methodName][0] != '#'
    ensures analysisName in AnalysisNumbers ==> |AnalysisNumbers[analysisName]| == 1 && AnalysisNumbers[analysisName][0] != '#'
  {
  }

  lemma AddMrcaLinesAreNotComments(mrca: seq<string>, tree: Node, table: map<string, string>)
    requires AddMrcaCommands(tree, table) == Success(mrca)
    ensures |mrca| >= 1 && mrca[0] == AddNodesComment
    ensures forall i :: 1 <= i < |mrca| ==> StartsWith(mrca[i], "AddMRCA ") && mrca[i][|mrca[i]| - 1] == '\n'
    ensures forall i :: 0 <= i < |Terminated(mrca)| ==> KeptWithoutComments(Terminated(mrca)[i])
  {
    AddMrcaLinesShape(mrca, tree, table);
    forall i | 0 <= i < |mrca| ensures KeptWithoutComments(Terminated(mrca)[i]) {
      var x := Terminated(mrca)[i];
      if i == 0 {
        assert x == AddNodesComment + "\n";
        assert x[1] == AddNodesComment[1] == 'A';
      } else {
        assert x[0] == mrca[i][0] == 'A';
      }
    }
  }

  lemma AddMrcaLinesShape(mrca: seq<string>, tree: Node, table: map<string, string>)
    requires AddMrcaCommands(tree, table) == Success(mrca)
    ensures |mrca| >= 1 && mrca[0] == AddNodesComment
    ensures forall i :: 1 <= i < |mrca| ==> StartsWith(mrca[i], "AddMRCA ") && mrca[i][|mrca[i]| - 1] == '\n'
  {
    AddMrcaCommandsSpec(tree, table);
    var tips := TipsWithParents(tree);
    forall i | 1 <= i < |mrca| ensures StartsWith(mrca[i], "AddMRCA ") && mrca[i][|mrca[i]| - 1] == '\n' {
      var t := tips[i - 1];
      AddMrcaLineEnds(AncestorName(t.tip), TranslateAll(table, LeafNamesOf(t.parent.children)));
    }
  }

  lemma AddMrcaLineEnds(ancestor: string, names: seq<string>)
    ensures var line := AddMrcaLine(ancestor, names);
      StartsWith(line, "AddMRCA ") && line[|line| - 1] == '\n'
  {
    var line := AddMrcaLine(ancestor, names);
    var rest := ancestor + " " + Join(names, " ") + "\n";
    assert line == "AddMRCA " + rest;
    assert line[..|"AddMRCA "|] == "AddMRCA ";
  }

  /** The prompt comments are recognised as such, and nothing else in the preamble is. */
  lemma PromptCommentEntries(m: string, a: string)
    requires |m| == 1 && |a| == 1 && m[0] != '#' && a[0] != '#'
    ensures IsPromptComment(ScriptHeader + "\n") && IsPromptComment(MethodMenu + "\n")
    ensures IsPromptComment(AnalysisMenu + "\n") && IsPromptComment(RestrictComment + "\n")
    ensures IsPromptComment(ReconstructComment + "\n")
    ensures !IsPromptComment(m + "\n") && !IsPromptComment(a + "\n")
    ensures !IsPromptComment(RestrictCommand + "\n") && !IsPromptComment(RunCommand + "\n")
  {
    assert (ScriptHeader + "\n")[0] == ScriptHeader[0] == '#';
    assert (MethodMenu + "\n")[0] == MethodMenu[0] == '#';
    assert (AnalysisMenu + "\n")[0] == AnalysisMenu[0] == '#';
    assert (RestrictComment + "\n")[0] == RestrictComment[0] == '#';
    assert (ReconstructComment + "\n")[0] == ReconstructComment[0] == '#';
    assert (ScriptHeader + "\n")[1] == ScriptHeader[1] == 'B';
    assert (MethodMenu + "\n")[1] == MethodMenu[1] == 'S';
    assert (AnalysisMenu + "\n")[1] == AnalysisMenu[1] == 'S';
    assert (RestrictComment + "\n")[1] == RestrictComment[1] == 'R';
    assert (ReconstructComment + "\n")[1] == ReconstructComment[1] == 'R';
    assert (m + "\n")[0] == m[0];
    assert (a + "\n")[0] == a[0];
    assert (RestrictCommand + "\n")[0] == 'R';
    assert (RunCommand + "\n")[0] == 'r';
  }

  /**
   * Without comments the script is: the method answer, the analysis answer,
   * `RestrictAll q01` when a single rate is asked for, the AddMRCA block and
   * `run`, each entry with one further newline (so AddMRCA lines end in two).
   */
  lemma ScriptWithoutComments(tree: Node, table: map<string, string>, methodName: string, analysisName: string,
                              singleRate: bool)
    requires methodName in MethodNumbers && analysisName in AnalysisNumbers
    ensures var r := MakeScript(tree, table, methodName, analysisName, false, singleRate);
      var tips := TipsWithParents(tree);
      var n := if singleRate then 3 else 2;
      && r.Success?
      && |r.value| == n + |tips| + 2
      && r.value[0] == MethodNumbers[methodName] + "\n"
      && r.value[1] == AnalysisNumbers[analysisName] + "\n"
      && (singleRate ==> r.value[2] == RestrictCommand + "\n")
      && r.value[n] == AddNodesComment + "\n"
      && (forall k :: 0 <= k < |tips| ==>
            r.value[n + 1 + k] == AddMrcaLine(AncestorName(tips[k].tip), TranslateAll(table, LeafNamesOf(tips[k].parent.children))) + "\n")
      && r.value[|r.value| - 1] == RunCommand + "\n"
  {
    AddMrcaCommandsLines(tree, table);
    var tips := TipsWithParents(tree);
    var mrca := AddMrcaCommands(tree, table).value;
    var pre := Preamble(MethodNumbers[methodName], AnalysisNumbers[analysisName], false, singleRate);
    var n := if singleRate then 3 else 2;
    assert |pre| == n && pre[0] == MethodNumbers[methodName] && pre[1] == AnalysisNumbers[analysisName];
    assert singleRate ==> pre[2] == RestrictCommand;
    var r := Terminated(pre + mrca + [RunCommand]);
    MakeScriptValue(tree, table, methodName, analysisName, false, singleRate);
    ScriptLayout(pre, mrca, RunCommand);
    ScriptMiddleLine(pre, mrca, RunCommand, 0, n);
    forall k | 0 <= k < |tips|
      ensures r[n + 1 + k] == AddMrcaLine(AncestorName(tips[k].tip), TranslateAll(table, LeafNamesOf(tips[k].parent.children))) + "\n"
    {
      ScriptMiddleLine(pre, mrca, RunCommand, k + 1, n + 1 + k);
    }
  }

  lemma MakeScriptValue(tree: Node, table: map<string, string>, methodName: string, analysisName: string,
                        comments: bool, singleRate: bool)
    requires methodName in MethodNumbers && analysisName in AnalysisNumbers
    ensures AddMrcaCommands(tree, table).Success?
    ensures MakeScript(tree, table, methodName, analysisName, comments, singleRate)
         == Success(Terminated(Preamble(MethodNumbers[methodName], AnalysisNumbers[analysisName], comments, singleRate)
                               + AddMrcaCommands(tree, table).value + [RunCommand]))
  {
    AddMrcaCommandsLines(tree, table);
  }

  /** Where the parts of a script land once each entry gets its "\n". */
  lemma ScriptLayout(pre: seq<string>, mid: seq<string>, last: string)
    ensures var r := Terminated(pre + mid + [last]);
      && |r| == |pre| + |mid| + 1
      && (forall i :: 0 <= i < |pre| ==> r[i] == pre[i] + "\n")
      && r[|r| - 1] == last + "\n"
  {
  }

  lemma ScriptMiddleLine(pre: seq<string>, mid: seq<string>, last: string, k: nat, i: nat)
    requires k < |mid| && i == |pre| + k
    ensures i < |Terminated(pre + mid + [last])| && Terminated(pre + mid + [last])[i] == mid[k] + "\n"
  {
    assert (pre + mid + [last])[i] == mid[k];
  }

  /**
   * `comments=False` changes nothing but the prompt comments: its script is
   * the `comments=True` script with those entries taken out.
   */
  lemma CommentsOnlyAdd(tree: Node, table: map<string, string>, methodName: string, analysisName: string,
                        singleRate: bool)
    ensures var withComments := MakeScript(tree, table, methodName, analysisName, true, singleRate);
      MakeScript(tree, table, methodName, analysisName, false, singleRate)
        == if withComments.Success? then Success(Filter(withComments.value, KeptWithoutComments)) else withComments
  {
    if methodName in MethodNumbers && analysisName in AnalysisNumbers {
      var m, a := MethodNumbers[methodName], AnalysisNumbers[analysisName];
      MenuAnswers(methodName, analysisName);
      ScriptSplit(tree, table, methodName, analysisName, true, singleRate);
      ScriptSplit(tree, table, methodName, analysisName, false, singleRate);
      var mrcaT := Terminated(AddMrcaCommands(tree, table).value);
      var preT := Terminated(Preamble(m, a, true, singleRate));
      var run := Terminated([RunCommand]);
      assert Filter(mrcaT, KeptWithoutComments) == mrcaT by {
        AddMrcaLinesAreNotComments(AddMrcaCommands(tree, table).value, tree, table);
        FilterKeepsAll(mrcaT, KeptWithoutComments);
      }
      assert Filter(run, KeptWithoutComments) == run by {
        assert run == [RunCommand + "\n"];
        assert (RunCommand + "\n")[0] == 'r';
        FilterOne(RunCommand + "\n", KeptWithoutComments);
      }
      PreambleFilter(m, a, singleRate);
      FilterThree(preT, mrcaT, run, KeptWithoutComments);
    }
  }

  /**
   * The entries a `comments=False` script lacks are, in order, the header,
   * the method menu, the analysis menu, "#Restrict to a single rate" when a
   * single rate is asked for, and "#Reconstruct parent nodes for each tip".
   */
  lemma PromptCommentsOfScript(tree: Node, table: map<string, string>, methodName: string, analysisName: string,
                               singleRate: bool)
    requires methodName in MethodNumbers && analysisName in AnalysisNumbers
    ensures var r := MakeScript(tree, table, methodName, analysisName, true, singleRate);
      && r.Success?
      && Filter(r.value, IsPromptComment)
         == Terminated([ScriptHeader, MethodMenu, AnalysisMenu] + (if singleRate then [RestrictComment] else []) + [ReconstructComment])
  {
    var m, a := MethodNumbers[methodName], AnalysisNumbers[analysisName];
    MenuAnswers(methodName, analysisName);
    ScriptSplit(tree, table, methodName, analysisName, true, singleRate);
    var mrcaT := Terminated(AddMrcaCommands(tree, table).value);
    var preT := Terminated(Preamble(m, a, true, singleRate));
    var run := Terminated([RunCommand]);
    assert Filter(mrcaT, IsPromptComment) == [] by {
      AddMrcaLinesAreNotComments(AddMrcaCommands(tree, table).value, tree, table);
      FilterDropsAll(mrcaT, IsPromptComment);
    }
    assert Filter(run, IsPromptComment) == [] by {
      assert run == [RunCommand + "\n"];
      assert (RunCommand + "\n")[0] == 'r';
      FilterOne(RunCommand + "\n", IsPromptComment);
    }
    PreambleFilter(m, a, singleRate);
    FilterThree(preT, mrcaT, run, IsPromptComment);
  }

  /** A script holds a `RestrictAll q01` entry exactly when a single rate is asked for, with or without comments. */
  lemma RestrictIffSingleRate(tree: Node, table: map<string, string>, methodName: string, analysisName: string,
                              comments: bool, singleRate: bool)
    requires methodName in MethodNumbers && analysisName in AnalysisNumbers
    ensures var r := MakeScript(tree, table, methodName, analysisName, comments, singleRate);
      r.Success? && (RestrictCommand + "\n" in r.value <==> singleRate)
  {
    var m, a := MethodNumbers[methodName], AnalysisNumbers[analysisName];
    MenuAnswers(methodName, analysisName);
    ScriptSplit(tree, table, methodName, analysisName, comments, singleRate);
    RestrictNotAddMrca(AddMrcaCommands(tree, table).value, tree, table);
    RestrictIffInPreamble(m, a, comments, singleRate);
    var run := Terminated([RunCommand]);
    assert |run| == 1 && run[0] == RunCommand + "\n";
    assert run[0][0] == 'r';
  }

  lemma RestrictNotAddMrca(mrca: seq<string>, tree: Node, table: map<string, string>)
    requires AddMrcaCommands(tree, table) == Success(mrca)
    ensures RestrictCommand + "\n" !in Terminated(mrca)
  {
    AddMrcaLinesShape(mrca, tree, table);
    forall i | 0 <= i < |mrca| ensures Terminated(mrca)[i] != RestrictCommand + "\n" {
      if i > 0 {
        assert mrca[i][0] == 'A' && Terminated(mrca)[i][0] == 'A';
      }
    }
  }

  lemma RestrictIffInPreamble(m: string, a: string, comments: bool, singleRate: bool)
    requires |m| == 1 && |a| == 1 && m[0] != '#' && a[0] != '#'
    ensures RestrictCommand + "\n" in Terminated(Preamble(m, a, comments, singleRate)) <==> singleRate
  {
    PreambleLayout(m, a, singleRate);
    var pre := Terminated(Preamble(m, a, comments, singleRate));
    var x := RestrictCommand + "\n";
    if !singleRate {
      if comments {
        assert pre == [ScriptHeader + "\n", MethodMenu + "\n", m + "\n", AnalysisMenu + "\n", a + "\n", ReconstructComment + "\n"];
        assert |x| != |ScriptHeader + "\n"| && |x| != |MethodMenu + "\n"| && |x| != |AnalysisMenu + "\n"|;
        assert |x| != |ReconstructComment + "\n"| && |x| != |m + "\n"| && |x| != |a + "\n"|;
      } else {
        assert pre == [m + "\n", a + "\n"];
        assert |x| != |m + "\n"| && |x| != |a + "\n"|;
      }
    }
  }

  lemma FilterThree<T>(p: seq<T>, q: seq<T>, r: seq<T>, keep: T -> bool)
    ensures Filter(p + q + r, keep) == Filter(p, keep) + Filter(q, keep) + Filter(r, keep)
  {
    FilterAppend(p + q, r, keep);
    FilterAppend(p, q, keep);
  }

  lemma ScriptSplit(tree: Node, table: map<string, string>, methodName: string, analysisName: string,
                    comments: bool, singleRate: bool)
    requires methodName in MethodNumbers && analysisName in AnalysisNumbers
    ensures AddMrcaCommands(tree, table).Success?
    ensures MakeScript(tree, table, methodName, analysisName, comments, singleRate)
        == Success(Terminated(Preamble(MethodNumbers[methodName], AnalysisNumbers[analysisName], comments, singleRate))
                   + Terminated(AddMrcaCommands(tree, table).value) + Terminated([RunCommand]))
  {
    AddMrcaCommandsSpec(tree, table);
    var mrca := AddMrcaCommands(tree, table).value;
    var pre := Preamble(MethodNumbers[methodName], AnalysisNumbers[analysisName], comments, singleRate);
    TerminatedAppend(pre + mrca, [RunCommand]);
    TerminatedAppend(pre, mrca);
  }

  lemma PreambleFilter(m: string, a: string, singleRate: bool)
    requires |m| == 1 && |a| == 1 && m[0] != '#' && a[0] != '#'
    ensures Filter(Terminated(Preamble(m, a, true, singleRate)), KeptWithoutComments)
         == Terminated(Preamble(m, a, false, singleRate))
    ensures Filter(Terminated(Preamble(m, a, true, singleRate)), IsPromptComment)
         == Terminated([ScriptHeader, MethodMenu, AnalysisMenu] + (if singleRate then [RestrictComment] else []) + [ReconstructComment])
  {
    PromptCommentEntries(m, a);
    var t1 := ScriptHeader + "\n";
    var t2 := MethodMenu + "\n";
    var t3 := m + "\n";
    var t4 := AnalysisMenu + "\n";
    var t5 := a + "\n";
    var t6 := ReconstructComment + "\n";
    var rT := if singleRate then [RestrictComment + "\n", RestrictCommand + "\n"] else [];
    var rF := if singleRate then [RestrictCommand + "\n"] else [];
    var rC := if singleRate then [RestrictComment + "\n"] else [];
    PreambleLayout(m, a, singleRate);
    RestrictFilter(singleRate, rT, rF, rC);
    FilterKeepsAnswers(t1, t2, t3, t4, t5, t6, rT, rF, KeptWithoutComments);
    FilterKeepsPrompts(t1, t2, t3, t4, t5, t6, rT, rC, IsPromptComment);
  }

  /** The terminated preamble, entry by entry, with and without comments. */
  lemma PreambleLayout(m: string, a: string, singleRate: bool)
    ensures Terminated(Preamble(m, a, true, singleRate))
         == [ScriptHeader + "\n"] + [MethodMenu + "\n"] + [m + "\n"] + [AnalysisMenu + "\n"] + [a + "\n"]
            + (if singleRate then [RestrictComment + "\n", RestrictCommand + "\n"] else []) + [ReconstructComment + "\n"]
    ensures Terminated(Preamble(m, a, false, singleRate))
         == [m + "\n"] + [a + "\n"] + (if singleRate then [RestrictCommand + "\n"] else [])
    ensures Terminated([ScriptHeader, MethodMenu, AnalysisMenu] + (if singleRate then [RestrictComment] else []) + [ReconstructComment])
         == [ScriptHeader + "\n"] + [MethodMenu + "\n"] + [AnalysisMenu + "\n"]
            + (if singleRate then [RestrictComment + "\n"] else []) + [ReconstructComment + "\n"]
  {
    var rT := if singleRate then [RestrictComment, RestrictCommand] else [];
    var rF := if singleRate then [RestrictCommand] else [];
    var rC := if singleRate then [RestrictComment] else [];
    assert Preamble(m, a, true, singleRate) == [ScriptHeader] + [MethodMenu] + [m] + [AnalysisMenu] + [a] + rT + [ReconstructComment];
    assert Preamble(m, a, false, singleRate) == [m] + [a] + rF + [];
    TerminatedCommentedPreamble(ScriptHeader, MethodMenu, m, AnalysisMenu, a, rT, ReconstructComment);
    TerminatedBarePreamble(m, a, rF);
    TerminatedPromptComments(ScriptHeader, MethodMenu, AnalysisMenu, rC, ReconstructComment);
    TerminatedRestriction(singleRate, RestrictComment, RestrictCommand);
  }

  /** The commented preamble (header, menu, answer, menu, answer, restriction, reconstruct comment), each newline-terminated. */
  lemma TerminatedCommentedPreamble(x1: string, x2: string, x3: string, x4: string, x5: string, r: seq<string>, x6: string)
    ensures Terminated([x1] + [x2] + [x3] + [x4] + [x5] + r + [x6])
         == [x1 + "\n"] + [x2 + "\n"] + [x3 + "\n"] + [x4 + "\n"] + [x5 + "\n"] + Terminated(r) + [x6 + "\n"]
  {
    TerminatedAppend([x1] + [x2] + [x3] + [x4] + [x5] + r, [x6]);
    TerminatedAppend([x1] + [x2] + [x3] + [x4] + [x5], r);
  }

  /** The bare preamble (two answers, restriction), each newline-terminated. */
  lemma TerminatedBarePreamble(x1: string, x2: string, r: seq<string>)
    ensures Terminated([x1] + [x2] + r + []) == [x1 + "\n"] + [x2 + "\n"] + Terminated(r)
  {
    TerminatedAppend([x1] + [x2] + r, []);
    TerminatedAppend([x1] + [x2], r);
  }

  /** The prompt comments (three fixed, the optional restriction comment, the reconstruct comment), each newline-terminated. */
  lemma TerminatedPromptComments(x1: string, x2: string, x3: string, r: seq<string>, x4: string)
    ensures Terminated([x1, x2, x3] + r + [x4]) == [x1 + "\n"] + [x2 + "\n"] + [x3 + "\n"] + Terminated(r) + [x4 + "\n"]
  {
    TerminatedAppend([x1, x2, x3] + r, [x4]);
    TerminatedAppend([x1, x2, x3], r);
  }

  /** The optional restriction entries, each newline-terminated. */
  lemma TerminatedRestriction(singleRate: bool, c: string, d: string)
    ensures Terminated(if singleRate then [c, d] else []) == if singleRate then [c + "\n", d + "\n"] else []
    ensures Terminated(if singleRate then [d] else []) == if singleRate then [d + "\n"] else []
    ensures Terminated(if singleRate then [c] else []) == if singleRate then [c + "\n"] else []
  {
  }

  lemma RestrictFilter(singleRate: bool, rT: seq<string>, rF: seq<string>, rC: seq<string>)
    requires rT == if singleRate then [RestrictComment + "\n", RestrictCommand + "\n"] else []
    requires rF == if singleRate then [RestrictCommand + "\n"] else []
    requires rC == if singleRate then [RestrictComment + "\n"] else []
    ensures Filter(rT, KeptWithoutComments) == rF
    ensures Filter(rT, IsPromptComment) == rC
  {
    PromptCommentEntries("1", "1");
    if singleRate {
      var c, d := RestrictComment + "\n", RestrictCommand + "\n";
      assert rT == [c] + [d];
      FilterAppend([c], [d], KeptWithoutComments);
      FilterAppend([c], [d], IsPromptComment);
      FilterOne(c, KeptWithoutComments);
      FilterOne(d, KeptWithoutComments);
      FilterOne(c, IsPromptComment);
      FilterOne(d, IsPromptComment);
    }
  }

  /** Filtering the six fixed preamble entries plus the restriction pair, for a predicate keeping the answers. */
  lemma FilterKeepsAnswers(t1: string, t2: string, t3: string, t4: string, t5: string, t6: string,
                            rT: seq<string>, rF: seq<string>, keep: string -> bool)
    requires !keep(t1) && !keep(t2) && keep(t3) && !keep(t4) && keep(t5) && !keep(t6)
    requires Filter(rT, keep) == rF
    ensures Filter([t1] + [t2] + [t3] + [t4] + [t5] + rT + [t6], keep) == [t3] + [t5] + rF
  {
    var p2 := [t1] + [t2];
    var p5 := p2 + [t3] + [t4] + [t5];
    FilterOne(t1, keep);
    FilterSnoc([t1], t2, keep);
    assert Filter(p2, keep) == [];
    FilterSnoc(p2, t3, keep);
    FilterSnoc(p2 + [t3], t4, keep);
    FilterSnoc(p2 + [t3] + [t4], t5, keep);
    assert Filter(p5, keep) == [t3] + [t5];
    FilterAppend(p5, rT, keep);
    FilterSnoc(p5 + rT, t6, keep);
  }

  /** The same, for a predicate keeping the prompt comments. */
  lemma FilterKeepsPrompts(t1: string, t2: string, t3: string, t4: string, t5: string, t6: string,
                            rT: seq<string>, rC: seq<string>, keep: string -> bool)
    requires keep(t1) && keep(t2) && !keep(t3) && keep(t4) && !keep(t5) && keep(t6)
    requires Filter(rT, keep) == rC
    ensures Filter([t1] + [t2] + [t3] + [t4] + [t5] + rT + [t6], keep) == [t1] + [t2] + [t4] + rC + [t6]
  {
    var p2 := [t1] + [t2];
    var p5 := p2 + [t3] + [t4] + [t5];
    FilterOne(t1, keep);
    FilterSnoc([t1], t2, keep);
    assert Filter(p2, keep) == p2;
    FilterSnoc(p2, t3, keep);
    FilterSnoc(p2 + [t3], t4, keep);
    FilterSnoc(p2 + [t3] + [t4], t5, keep);
    assert Filter(p5, keep) == p2 + [t4];
    FilterAppend(p5, rT, keep);
    FilterSnoc(p5 + rT, t6, keep);
  }

  lemma FilterSnoc(s: seq<string>, x: string, keep: string -> bool)
    ensures Filter(s + [x], keep) == Filter(s, keep) + (if keep(x) then [x] else [])
  {
    FilterAppend(s, [x], keep);
    FilterOne(x, keep);
  }

  /** `predict_bayestraits_output_file(table_filepath)` */
  function PredictOutputFile(tablePath: string): (r: string)
    ensures |r| == |tablePath| + 8 && r[..|tablePath|] == tablePath && r[|tablePath|..] == ".log.txt"
  {
    tablePath + ".log.txt"
  }
}
