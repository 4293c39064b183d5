/**
 * The rooted, ordered tree the script generator walks. PyCogent's PhyloNode
 * is replaced by a value: a name and the ordered children. A node without
 * children is a tip.
 */
module Tree {

  datatype Node = Node(name: string, children: seq<Node>)

  predicate IsTip(n: Node) {
    n.children == []
  }

  /** A tip met by `iterTips()` together with its `Parent`. */
  datatype TipAt = TipAt(tip: Node, parent: Node)

  /** Names of the tips at or below n, left to right (`[t.Name for t in n.iterTips()]` for an internal n). */
  function LeafNames(n: Node): (r: seq<string>)
    ensures |r| >= 1
    decreases n
  {
    if n.children == [] then [n.name] else LeafNamesOf(n.children)
  }

  /** The leaf names of a list of sibling subtrees, concatenated in order. */
  function LeafNamesOf(ns: seq<Node>): (r: seq<string>)
    ensures ns != [] ==> |r| >= 1
    decreases ns
  {
    if ns == [] then [] else LeafNames(ns[0]) + LeafNamesOf(ns[1..])
  }

  /**
   * `tree.iterTips()` paired with each tip's parent: for every internal node
   * and each child in order, a tip child is reported with that node as its
   * parent and an internal child is descended into. A tree that is a single
   * tip has no tips below it.
   */
  function TipsWithParents(n: Node): seq<TipAt>
    decreases n
  {
    if n.children == [] then [] else ChildTips(n, n.children)
  }

  function ChildTips(parent: Node, cs: seq<Node>): seq<TipAt>
    decreases cs
  {
    if cs == [] then []
    else (if IsTip(cs[0]) then [TipAt(cs[0], parent)] else TipsWithParents(cs[0]))
         + ChildTips(parent, cs[1..])
  }

  function TipNames(tips: seq<TipAt>): (r: seq<string>)
    ensures |r| == |tips|
    ensures forall k :: 0 <= k < |tips| ==> r[k] == tips[k].tip.name
  {
    if tips == [] then [] else [tips[0].tip.name] + TipNames(tips[1..])
  }

  lemma TipNamesAppend(a: seq<TipAt>, b: seq<TipAt>)
    ensures TipNames(a + b) == TipNames(a) + TipNames(b)
  {
  }

  /** A reported tip is a tip, and it is one of its parent's children. */
  predicate WellPlaced(t: TipAt) {
    IsTip(t.tip) && t.tip in t.parent.children
  }

  /**
   * Each reported tip has its reported parent, and tips come left to right:
   * their names are exactly the leaf names of the tree (none for a lone tip).
   * That the reported parent is itself a node of the tree is
   * `TipParentsInTree`.
   */
  lemma {:induction false} TipsWithParentsSpec(n: Node)
    ensures forall k :: 0 <= k < |TipsWithParents(n)| ==> WellPlaced(TipsWithParents(n)[k])
    ensures TipNames(TipsWithParents(n)) == if IsTip(n) then [] else LeafNames(n)
    decreases n
  {
    if n.children != [] {
      ChildTipsSpec(n, n.children);
    }
  }

  /** p is n itself or a node somewhere below it. */
  predicate Subtree(p: Node, n: Node)
    decreases n
  {
    p == n || exists i :: 0 <= i < |n.children| && Subtree(p, n.children[i])
  }

  /** Every reported parent is a node of the tree. */
  lemma {:induction false} TipParentsInTree(n: Node)
    ensures forall k :: 0 <= k < |TipsWithParents(n)| ==> Subtree(TipsWithParents(n)[k].parent, n)
    decreases n
  {
    if n.children != [] {
      ChildTipParentsInTree(n, n.children);
    }
  }

  lemma {:induction false} ChildTipParentsInTree(parent: Node, cs: seq<Node>)
    requires forall c :: c in cs ==> c in parent.children
    ensures forall k :: 0 <= k < |ChildTips(parent, cs)| ==> Subtree(ChildTips(parent, cs)[k].parent, parent)
    decreases cs
  {
    if cs != [] {
      var head := if IsTip(cs[0]) then [TipAt(cs[0], parent)] else TipsWithParents(cs[0]);
      var tail := ChildTips(parent, cs[1..]);
      ChildTipParentsInTree(parent, cs[1..]);
      if !IsTip(cs[0]) {
        TipParentsInTree(cs[0]);
        assert cs[0] in parent.children;
        var i :| 0 <= i < |parent.children| && parent.children[i] == cs[0];
        forall k | 0 <= k < |head| ensures Subtree(head[k].parent, parent) {
          assert Subtree(head[k].parent, parent.children[i]);
        }
      }
      var r := ChildTips(parent, cs);
      assert r == head + tail;
      forall k | 0 <= k < |r| ensures Subtree(r[k].parent, parent) {
        if k < |head| { assert r[k] == head[k]; } else { assert r[k] == tail[k - |head|]; }
      }
    }
  }

  lemma TipsWellPlaced(n: Node)
    ensures forall k :: 0 <= k < |TipsWithParents(n)| ==> WellPlaced(TipsWithParents(n)[k])
  {
    TipsWithParentsSpec(n);
  }

  lemma {:induction false} ChildTipsSpec(parent: Node, cs: seq<Node>)
    requires forall c :: c in cs ==> c in parent.children
    ensures forall k :: 0 <= k < |ChildTips(parent, cs)| ==> WellPlaced(ChildTips(parent, cs)[k])
    ensures TipNames(ChildTips(parent, cs)) == LeafNamesOf(cs)
    decreases cs
  {
    if cs != [] {
      var head := if IsTip(cs[0]) then [TipAt(cs[0], parent)] else TipsWithParents(cs[0]);
      if !IsTip(cs[0]) { TipsWithParentsSpec(cs[0]); }
      ChildTipsSpec(parent, cs[1..]);
      TipNamesAppend(head, ChildTips(parent, cs[1..]));
    }
  }

  /** Every leaf of a child is a leaf of the list of children. */
  lemma {:induction false} LeavesOfMember(c: Node, cs: seq<Node>)
    requires c in cs
    ensures forall x :: x in LeafNames(c) ==> x in LeafNamesOf(cs)
    decreases cs
  {
    if cs[0] != c { LeavesOfMember(c, cs[1..]); }
  }

  /** A reported tip's name is among the leaf names of its parent's children. */
  lemma TipAmongParentLeaves(t: TipAt)
    requires WellPlaced(t)
    ensures t.tip.name in LeafNamesOf(t.parent.children)
  {
    LeavesOfMember(t.tip, t.parent.children);
  }

  /** Concatenation of a list of groups. */
  function Flatten(gs: seq<seq<Node>>): seq<Node> {
    if gs == [] then [] else gs[0] + Flatten(gs[1..])
  }

  /**
   * `childGroups()`: the children split into maximal runs of tips and of
   * internal nodes, each run a non-empty group.
   */
  function ChildGroups(cs: seq<Node>): (r: seq<seq<Node>>)
    ensures forall i :: 0 <= i < |r| ==> r[i] != []
  {
    if cs == [] then []
    else
      var rest := ChildGroups(cs[1..]);
      if rest != [] && IsTip(rest[0][0]) == IsTip(cs[0]) then [[cs[0]] + rest[0]] + rest[1..]
      else [[cs[0]]] + rest
  }

  /** The groups concatenate back to the children: nothing is lost, repeated or reordered. */
  lemma {:induction false} ChildGroupsFlatten(cs: seq<Node>)
    ensures Flatten(ChildGroups(cs)) == cs
    decreases |cs|
  {
    if cs != [] {
      ChildGroupsFlatten(cs[1..]);
      var rest := ChildGroups(cs[1..]);
      var r := ChildGroups(cs);
      assert cs == [cs[0]] + cs[1..];
      if rest != [] && IsTip(rest[0][0]) == IsTip(cs[0]) {
        assert rest == [rest[0]] + rest[1..];
        assert r[0] == [cs[0]] + rest[0] && r[1..] == rest[1..];
      } else {
        assert r[0] == [cs[0]] && r[1..] == rest;
      }
    }
  }

  /** Each group is all tips or all internal nodes, and the first group starts with the first child. */
  lemma {:induction false} ChildGroupsUniform(cs: seq<Node>)
    ensures var r := ChildGroups(cs);
      && (cs != [] ==> r != [] && r[0][0] == cs[0])
      && forall i :: 0 <= i < |r| ==> Uniform(r[i])
    decreases |cs|
  {
    if cs != [] {
      ChildGroupsUniform(cs[1..]);
      var rest := ChildGroups(cs[1..]);
      var r := ChildGroups(cs);
      if rest != [] && IsTip(rest[0][0]) == IsTip(cs[0]) {
        assert Uniform(rest[0]);
        forall i | 1 <= i < |r| ensures Uniform(r[i]) { assert r[i] == rest[i]; }
      } else {
        forall i | 1 <= i < |r| ensures Uniform(r[i]) { assert r[i] == rest[i - 1]; }
      }
    }
  }

  /** All tips or all internal nodes. */
  predicate Uniform(g: seq<Node>) {
    forall j :: 0 <= j < |g| ==> IsTip(g[j]) == IsTip(g[0])
  }

  /** Names a `childGroups()` entry contributes: its own name for a tip, its tips' names otherwise. */
  function EntryNames(entry: Node): seq<string> {
    if IsTip(entry) then [entry.name] else LeafNames(entry)
  }

  /** Names contributed by the entries of one group, in order. */
  function EntriesNames(es: seq<Node>): seq<string> {
    if es == [] then [] else EntriesNames(es[..|es| - 1]) + EntryNames(es[|es| - 1])
  }

  /** Names contributed by a list of groups, in order. */
  function GroupNames(gs: seq<seq<Node>>): seq<string> {
    if gs == [] then [] else GroupNames(gs[..|gs| - 1]) + EntriesNames(gs[|gs| - 1])
  }

  lemma EntriesNamesSnoc(es: seq<Node>, i: nat)
    requires i < |es|
    ensures EntriesNames(es[..i + 1]) == EntriesNames(es[..i]) + EntryNames(es[i])
  {
    assert es[..i + 1][..i] == es[..i];
  }

  lemma GroupNamesSnoc(gs: seq<seq<Node>>, i: nat)
    requires i < |gs|
    ensures GroupNames(gs[..i + 1]) == GroupNames(gs[..i]) + EntriesNames(gs[i])
  {
    assert gs[..i + 1][..i] == gs[..i];
  }

  lemma {:induction false} LeafNamesOfAppend(a: seq<Node>, b: seq<Node>)
    ensures LeafNamesOf(a + b) == LeafNamesOf(a) + LeafNamesOf(b)
    decreases |a|
  {
    if a != [] {
      assert (a + b)[0] == a[0] && (a + b)[1..] == a[1..] + b;
      LeafNamesOfAppend(a[1..], b);
    } else {
      assert a + b == b;
    }
  }

  lemma {:induction false} EntriesNamesAreLeafNames(es: seq<Node>)
    ensures EntriesNames(es) == LeafNamesOf(es)
    decreases |es|
  {
    if es != [] {
      var init := es[..|es| - 1];
      var last := es[|es| - 1];
      EntriesNamesAreLeafNames(init);
      assert es == init + [last];
      LeafNamesOfAppend(init, [last]);
      assert LeafNamesOf([last]) == LeafNames(last) + LeafNamesOf([]);
    }
  }

  lemma {:induction false} FlattenAppend(gs: seq<seq<Node>>, g: seq<Node>)
    ensures Flatten(gs + [g]) == Flatten(gs) + g
    decreases |gs|
  {
    if gs != [] {
      assert (gs + [g])[1..] == gs[1..] + [g];
      FlattenAppend(gs[1..], g);
    } else {
      assert Flatten([g]) == g + Flatten([]);
    }
  }

  /**
   * Whatever split of the children into groups is used, as long as the
   * groups concatenate back to the children, the collected sibling names are
   * the leaf names of the children, in order and with repeats kept.
   */
  lemma {:induction false} SiblingNamesOfAnySplit(gs: seq<seq<Node>>, cs: seq<Node>)
    requires Flatten(gs) == cs
    ensures GroupNames(gs) == LeafNamesOf(cs)
    decreases |gs|
  {
    if gs != [] {
      var init := gs[..|gs| - 1];
      var last := gs[|gs| - 1];
      assert gs == init + [last];
      FlattenAppend(init, last);
      SiblingNamesOfAnySplit(init, Flatten(init));
      EntriesNamesAreLeafNames(last);
      LeafNamesOfAppend(Flatten(init), last);
    }
  }
}
