/** Gap analysis: an and/or requirement tree walked against a set of completed courses. */
module GapAnalysis {

  datatype RequirementNode =
    | Leaf(requirementId: string, name: string, pool: seq<string>, need: int)
    | And(requirementId: string, name: string, children: seq<RequirementNode>)
    | Or(requirementId: string, name: string, children: seq<RequirementNode>)

  datatype Unsatisfied = Unsatisfied(requirementId: string, name: string, pool: seq<string>, need: int,
                                     alreadySatisfiedBy: seq<string>)

  /** The entries of a pool that are completed, in pool order, repeated entries counted each time. */
  function Already(pool: seq<string>, completed: set<string>): seq<string> {
    if pool == [] then [] else
      (if pool[0] in completed then [pool[0]] else []) + Already(pool[1..], completed)
  }

  predicate LeafSatisfied(leaf: RequirementNode, completed: set<string>)
    requires leaf.Leaf?
  {
    |Already(leaf.pool, completed)| >= leaf.need
  }

  /** The meaning of a tree: a leaf needs enough of its pool, an `and` all children, an `or` one. */
  predicate Satisfied(node: RequirementNode, completed: set<string>) {
    match node
    case Leaf(_, _, _, _) => LeafSatisfied(node, completed)
    case And(_, _, children) => forall c :: c in children ==> Satisfied(c, completed)
    case Or(_, _, children) => exists c :: c in children && Satisfied(c, completed)
  }

  /** All leaves of a tree, left to right. */
  function Leaves(node: RequirementNode): (leaves: seq<RequirementNode>)
    ensures forall l :: l in leaves ==> l.Leaf?
    decreases node, 0
  {
    match node
    case Leaf(_, _, _, _) => [node]
    case And(_, _, children) => AllLeaves(children)
    case Or(_, _, children) => AllLeaves(children)
  }

  function AllLeaves(nodes: seq<RequirementNode>): (leaves: seq<RequirementNode>)
    ensures forall l :: l in leaves ==> l.Leaf?
    decreases nodes, 1
  {
    if nodes == [] then [] else Leaves(nodes[0]) + AllLeaves(nodes[1..])
  }

  function Entry(leaf: RequirementNode, completed: set<string>): Unsatisfied
    requires leaf.Leaf?
  {
    var already := Already(leaf.pool, completed);
    Unsatisfied(leaf.requirementId, if leaf.name != "" then leaf.name else leaf.requirementId,
                leaf.pool, leaf.need - |already|, already)
  }

  /** What one leaf contributes to the report. */
  function Part(leaf: RequirementNode, completed: set<string>): seq<Unsatisfied>
    requires leaf.Leaf?
  {
    if LeafSatisfied(leaf, completed) then [] else [Entry(leaf, completed)]
  }

  /** The entries of the unsatisfied ones among the leaves. */
  function Report(leaves: seq<RequirementNode>, completed: set<string>): seq<Unsatisfied>
    requires forall l :: l in leaves ==> l.Leaf?
  {
    if leaves == [] then [] else
      Part(leaves[0], completed) + Report(leaves[1..], completed)
  }

  lemma {:induction false} ReportFirst(leaf: RequirementNode, rest: seq<RequirementNode>, completed: set<string>)
    requires leaf.Leaf? && forall l :: l in rest ==> l.Leaf?
    ensures Report([leaf] + rest, completed) == Part(leaf, completed) + Report(rest, completed)
  {
    assert ([leaf] + rest)[1..] == rest;
  }

  lemma {:induction false} ReportJoins(a: seq<RequirementNode>, b: seq<RequirementNode>, completed: set<string>)
    requires (forall l :: l in a ==> l.Leaf?) && (forall l :: l in b ==> l.Leaf?)
    ensures Report(a + b, completed) == Report(a, completed) + Report(b, completed)
  {
    if a == [] {
      assert a + b == b;
    } else {
      hide Report, Part;
      var first, rest := Part(a[0], completed), a[1..];
      assert a == [a[0]] + rest && a + b == [a[0]] + (rest + b);
      calc {
        Report(a + b, completed);
        { ReportFirst(a[0], rest + b, completed); }
        first + Report(rest + b, completed);
        { ReportJoins(rest, b, completed); }
        first + (Report(rest, completed) + Report(b, completed));
        (first + Report(rest, completed)) + Report(b, completed);
        { ReportFirst(a[0], rest, completed); }
        Report(a, completed) + Report(b, completed);
      }
    }
  }

  // ---------------------------------------------------------------------
  // The walk
  // ---------------------------------------------------------------------

  /** The list the walk appends to. */
  class Findings {
    var items: seq<Unsatisfied>

    constructor ()
      ensures items == []
    {
      items := [];
    }
  }

  lemma {:induction false} AllLeavesSplit(nodes: seq<RequirementNode>, i: nat)
    requires i < |nodes|
    ensures AllLeaves(nodes[..i + 1]) == AllLeaves(nodes[..i]) + Leaves(nodes[i])
  {
    if i == 0 {
      assert nodes[..1] == [nodes[0]] && nodes[..0] == [] && nodes[..1][1..] == [];
    } else {
      AllLeavesSplit(nodes[1..], i - 1);
      assert nodes[..i + 1][1..] == nodes[1..][..i] && nodes[..i][1..] == nodes[1..][..i - 1];
    }
  }

  /** The walk returns what the tree means and appends the report of its leaves, in pre-order. */
  method Walk(node: RequirementNode, completed: set<string>, out: Findings, parentSatisfied: bool) returns (ok: bool)
    modifies out
    ensures ok == Satisfied(node, completed)
    ensures out.items == old(out.items) + if parentSatisfied then [] else Report(Leaves(node), completed)
    decreases node
  {
    match node {
      case Leaf(id, name, pool, need) =>
        var already := Already(pool, completed);
        if |already| >= need {
          return true;
        }
        if !parentSatisfied {
          out.items := out.items
            + [Unsatisfied(id, if name != "" then name else id, pool, need - |already|, already)];
        }
        return false;
      case And(_, _, children) =>
        ok := WalkChildren(node, children, completed, out, parentSatisfied, true);
      case Or(_, _, children) =>
        ok := WalkChildren(node, children, completed, out, parentSatisfied, false);
    }
  }

  /** All children are walked, whatever the first ones answer; then `all` or `any`. */
  method WalkChildren(node: RequirementNode, children: seq<RequirementNode>, completed: set<string>, out: Findings,
                      parentSatisfied: bool, conjunctive: bool) returns (ok: bool)
    requires !node.Leaf? && children == node.children
    modifies out
    ensures ok == if conjunctive then forall c :: c in children ==> Satisfied(c, completed)
                  else exists c :: c in children && Satisfied(c, completed)
    ensures out.items == old(out.items) + if parentSatisfied then [] else Report(AllLeaves(children), completed)
    decreases node, 0
  {
    hide Report, Leaves, AllLeaves, Satisfied;
    ok := conjunctive;
    assert children[..0] == [];
    NothingToWalk(completed);
    for i := 0 to |children|
      invariant ok == if conjunctive then forall j :: 0 <= j < i ==> Satisfied(children[j], completed)
                      else exists j :: 0 <= j < i && Satisfied(children[j], completed)
      invariant out.items == old(out.items) + if parentSatisfied then [] else Report(AllLeaves(children[..i]), completed)
    {
      var r := Walk(children[i], completed, out, parentSatisfied);
      AllLeavesSplit(children, i);
      ReportJoins(AllLeaves(children[..i]), Leaves(children[i]), completed);
      ok := if conjunctive then ok && r else ok || r;
    }
    assert children[..|children|] == children;
  }

  lemma {:induction false} NothingToWalk(completed: set<string>)
    ensures Report(AllLeaves([]), completed) == []
  {
  }

  /** The unsatisfied leaves of a program. */
  method ComputeUnsatisfied(root: RequirementNode, completed: set<string>) returns (report: seq<Unsatisfied>)
    ensures report == Report(Leaves(root), completed)
  {
    var out := new Findings();
    var _ := Walk(root, completed, out, false);
    report := out.items;
  }

  // ---------------------------------------------------------------------
  // What the report says
  // ---------------------------------------------------------------------

  /** What a leaf is already satisfied by: the completed entries of its pool, in pool order. */
  lemma {:induction false} AlreadyIsFilter(pool: seq<string>, completed: set<string>) returns (at: seq<nat>)
    ensures |at| == |Already(pool, completed)|
    ensures forall i :: 0 <= i < |at| ==> at[i] < |pool| && Already(pool, completed)[i] == pool[at[i]]
    ensures forall i, j :: 0 <= i < j < |at| ==> at[i] < at[j]
    ensures forall k | 0 <= k < |pool| :: k in at <==> pool[k] in completed
  {
    at := [];
    if pool != [] {
      var n := |pool| - 1;
      at := AlreadyIsFilter(pool[..n], completed);
      AlreadyJoins(pool[..n], pool[n], completed);
      assert pool == pool[..n] + [pool[n]];
      if pool[n] in completed {
        at := at + [n];
      }
      assert forall k :: 0 <= k < n ==> pool[..n][k] == pool[k];
    }
  }

  lemma {:induction false} AlreadyJoins(pool: seq<string>, c: string, completed: set<string>)
    ensures Already(pool + [c], completed) == Already(pool, completed) + if c in completed then [c] else []
  {
    if pool == [] {
      assert [] + [c] == [c] && [c][1..] == [];
    } else {
      assert (pool + [c])[1..] == pool[1..] + [c];
      AlreadyJoins(pool[1..], c, completed);
    }
  }

  lemma {:induction false} AlreadyCount(pool: seq<string>, completed: set<string>)
    ensures |Already(pool, completed)| == |set i | 0 <= i < |pool| && pool[i] in completed|
  {
    var all := set i | 0 <= i < |pool| && pool[i] in completed;
    if pool == [] {
      assert all == {};
    } else {
      var n := |pool| - 1;
      AlreadyCount(pool[..n], completed);
      AlreadyJoins(pool[..n], pool[n], completed);
      assert pool == pool[..n] + [pool[n]];
      var before := set i | 0 <= i < n && pool[..n][i] in completed;
      if pool[n] in completed {
        assert all == before + {n};
      } else {
        assert all == before;
      }
    }
  }

  /** What a leaf, an `and` and an `or` mean, and which leaves they have, in order. */
  lemma {:induction false} TreeSpelled(id: string, name: string, pool: seq<string>, need: int,
                                       children: seq<RequirementNode>, last: RequirementNode, completed: set<string>)
    ensures Satisfied(Leaf(id, name, pool, need), completed)
            <==> |set i | 0 <= i < |pool| && pool[i] in completed| >= need
    ensures Satisfied(And(id, name, children + [last]), completed)
            <==> Satisfied(And(id, name, children), completed) && Satisfied(last, completed)
    ensures Satisfied(Or(id, name, children + [last]), completed)
            <==> Satisfied(Or(id, name, children), completed) || Satisfied(last, completed)
    ensures Satisfied(And(id, name, []), completed) && !Satisfied(Or(id, name, []), completed)
    ensures Leaves(Leaf(id, name, pool, need)) == [Leaf(id, name, pool, need)]
    ensures Leaves(And(id, name, [])) == Leaves(Or(id, name, [])) == []
    ensures Leaves(And(id, name, children + [last])) == Leaves(And(id, name, children)) + Leaves(last)
    ensures Leaves(Or(id, name, children + [last])) == Leaves(Or(id, name, children)) + Leaves(last)
  {
    hide Satisfied, Leaves;
    LeafSpelled(id, name, pool, need, completed);
    NodesSpelled(id, name, children, last, completed);
    LeavesSpelled(id, name, children, last);
  }

  lemma {:induction false} LeafSpelled(id: string, name: string, pool: seq<string>, need: int, completed: set<string>)
    ensures Satisfied(Leaf(id, name, pool, need), completed)
            <==> |set i | 0 <= i < |pool| && pool[i] in completed| >= need
    ensures Leaves(Leaf(id, name, pool, need)) == [Leaf(id, name, pool, need)]
  {
    AlreadyCount(pool, completed);
  }

  lemma {:induction false} NodesSpelled(id: string, name: string, children: seq<RequirementNode>, last: RequirementNode,
                                        completed: set<string>)
    ensures Satisfied(And(id, name, children + [last]), completed)
            <==> Satisfied(And(id, name, children), completed) && Satisfied(last, completed)
    ensures Satisfied(Or(id, name, children + [last]), completed)
            <==> Satisfied(Or(id, name, children), completed) || Satisfied(last, completed)
    ensures Satisfied(And(id, name, []), completed) && !Satisfied(Or(id, name, []), completed)
  {
    assert forall c :: c in children + [last] <==> c in children || c == last;
  }

  lemma {:induction false} LeavesSpelled(id: string, name: string, children: seq<RequirementNode>, last: RequirementNode)
    ensures Leaves(And(id, name, [])) == Leaves(Or(id, name, [])) == []
    ensures Leaves(And(id, name, children + [last])) == Leaves(And(id, name, children)) + Leaves(last)
    ensures Leaves(Or(id, name, children + [last])) == Leaves(Or(id, name, children)) + Leaves(last)
  {
    var more := children + [last];
    assert more[..|children|] == children && more[..|children| + 1] == more;
    AllLeavesSplit(more, |children|);
  }

  /** Exactly the unsatisfied leaves are reported, each with its id, its name (or its id if that is empty), its pool,
      the number still missing and what it is already satisfied by. */
  lemma {:induction false} ReportExact(leaves: seq<RequirementNode>, completed: set<string>, u: Unsatisfied)
    requires forall l :: l in leaves ==> l.Leaf?
    ensures u in Report(leaves, completed) <==>
            exists l ::
              && l in leaves
              && |set i | 0 <= i < |l.pool| && l.pool[i] in completed| < l.need
              && u.requirementId == l.requirementId
              && u.name == (if l.name == "" then l.requirementId else l.name)
              && u.pool == l.pool
              && u.need == l.need - |set i | 0 <= i < |l.pool| && l.pool[i] in completed|
              && u.alreadySatisfiedBy == Already(l.pool, completed)
  {
    if leaves != [] {
      ReportExact(leaves[1..], completed, u);
      assert leaves == [leaves[0]] + leaves[1..];
      AlreadyCount(leaves[0].pool, completed);
    }
  }

  /** Pool positions completed since. */
  function NewlyDone(pool: seq<string>, before: set<string>, after: set<string>): nat {
    if pool == [] then 0 else
      (if pool[0] !in before && pool[0] in after then 1 else 0) + NewlyDone(pool[1..], before, after)
  }

  lemma {:induction false} AlreadyGrows(pool: seq<string>, before: set<string>, after: set<string>)
    requires before <= after
    ensures |Already(pool, after)| == |Already(pool, before)| + NewlyDone(pool, before, after)
  {
    if pool != [] { AlreadyGrows(pool[1..], before, after); }
  }

  /** Completing courses never unsatisfies a requirement. */
  lemma {:induction false} SatisfiedMonotone(node: RequirementNode, before: set<string>, after: set<string>)
    requires before <= after && Satisfied(node, before)
    ensures Satisfied(node, after)
    decreases node
  {
    match node
    case Leaf(_, _, pool, _) => AlreadyGrows(pool, before, after);
    case And(_, _, children) =>
      forall c | c in children ensures Satisfied(c, after) { SatisfiedMonotone(c, before, after); }
    case Or(_, _, children) =>
      var c :| c in children && Satisfied(c, before);
      SatisfiedMonotone(c, before, after);
  }

  /** The report shrinks as courses complete: no leaf joins it and no need grows. */
  lemma {:induction false} ReportShrinks(leaves: seq<RequirementNode>, before: set<string>, after: set<string>)
    requires before <= after && forall l :: l in leaves ==> l.Leaf?
    ensures |Report(leaves, after)| <= |Report(leaves, before)|
    ensures forall l :: l in leaves && !LeafSatisfied(l, after) ==>
              !LeafSatisfied(l, before) && Entry(l, after).need <= Entry(l, before).need
  {
    if leaves != [] {
      AlreadyGrows(leaves[0].pool, before, after);
      ReportShrinks(leaves[1..], before, after);
      assert leaves == [leaves[0]] + leaves[1..];
    }
  }

  lemma {:induction false} EmptyReport(leaves: seq<RequirementNode>, completed: set<string>)
    requires forall l :: l in leaves ==> l.Leaf?
    ensures Report(leaves, completed) == [] <==> forall l :: l in leaves ==> LeafSatisfied(l, completed)
  {
    if leaves != [] {
      EmptyReport(leaves[1..], completed);
      assert leaves == [leaves[0]] + leaves[1..];
    }
  }

  lemma {:induction false} NewlyDoneCount(pool: seq<string>, before: set<string>, after: set<string>)
    requires before <= after
    ensures NewlyDone(pool, before, after) == |set i | 0 <= i < |pool| && pool[i] !in before && pool[i] in after|
  {
    var old', new' := set i | 0 <= i < |pool| && pool[i] in before, set i | 0 <= i < |pool| && pool[i] in after;
    var done := set i | 0 <= i < |pool| && pool[i] !in before && pool[i] in after;
    AlreadyGrows(pool, before, after);
    AlreadyCount(pool, before);
    AlreadyCount(pool, after);
    assert new' == old' + done && old' !! done;
  }

  /** A re-run reports nothing exactly when, for every leaf reported before, at least as many further places of its
      pool have been completed as it was missing. */
  lemma {:induction false} ClosingTheGapIff(leaves: seq<RequirementNode>, before: set<string>, after: set<string>)
    requires before <= after && forall l :: l in leaves ==> l.Leaf?
    ensures Report(leaves, after) == [] <==>
            forall l :: l in leaves ==>
              var done := |set i | 0 <= i < |l.pool| && l.pool[i] in before|;
              done >= l.need
              || |set i | 0 <= i < |l.pool| && l.pool[i] !in before && l.pool[i] in after| >= l.need - done
  {
    EmptyReport(leaves, after);
    forall l | l in leaves
      ensures LeafSatisfied(l, after) <==>
              var done := |set i | 0 <= i < |l.pool| && l.pool[i] in before|;
              done >= l.need
              || |set i | 0 <= i < |l.pool| && l.pool[i] !in before && l.pool[i] in after| >= l.need - done
    {
      AlreadyGrows(l.pool, before, after);
      AlreadyCount(l.pool, before);
      NewlyDoneCount(l.pool, before, after);
    }
  }

  /** With all leaves taken as satisfied, does the tree come out satisfied? An `or` without children does not. */
  predicate Closable(node: RequirementNode) {
    match node
    case Leaf(_, _, _, _) => true
    case And(_, _, children) => forall c :: c in children ==> Closable(c)
    case Or(_, _, children) => exists c :: c in children && Closable(c)
  }

  predicate NoChildlessOr(node: RequirementNode) {
    match node
    case Leaf(_, _, _, _) => true
    case And(_, _, children) => forall c :: c in children ==> NoChildlessOr(c)
    case Or(_, _, children) => children != [] && forall c :: c in children ==> NoChildlessOr(c)
  }

  lemma {:induction false} ChildLeaves(children: seq<RequirementNode>, c: RequirementNode, l: RequirementNode)
    requires c in children && l in Leaves(c)
    ensures l in AllLeaves(children)
  {
    if c != children[0] {
      assert children == [children[0]] + children[1..];
      ChildLeaves(children[1..], c, l);
    }
  }

  /** When nothing is left to report, the root is satisfied exactly when the tree can be closed at all. */
  lemma {:induction false} EmptyReportSatisfiesIff(node: RequirementNode, completed: set<string>)
    requires forall l :: l in Leaves(node) ==> LeafSatisfied(l, completed)
    ensures Satisfied(node, completed) <==> Closable(node)
    decreases node
  {
    if node.Leaf? {
      assert node in Leaves(node);
    } else {
      forall c | c in node.children ensures Satisfied(c, completed) <==> Closable(c) {
        forall l | l in Leaves(c) ensures LeafSatisfied(l, completed) {
          ChildLeaves(node.children, c, l);
        }
        EmptyReportSatisfiesIff(c, completed);
      }
    }
  }

  lemma {:induction false} NoChildlessOrCloses(node: RequirementNode)
    requires NoChildlessOr(node)
    ensures Closable(node)
    decreases node
  {
    match node
    case Leaf(_, _, _, _) =>
    case And(_, _, children) =>
      forall c | c in children ensures Closable(c) { NoChildlessOrCloses(c); }
    case Or(_, _, children) =>
      NoChildlessOrCloses(children[0]);
  }

  /** An empty report means the degree is done, in every tree without a childless `or`. */
  lemma {:induction false} EmptyReportMeansDone(root: RequirementNode, completed: set<string>)
    requires Report(Leaves(root), completed) == [] && NoChildlessOr(root)
    ensures Satisfied(root, completed)
  {
    EmptyReport(Leaves(root), completed);
    NoChildlessOrCloses(root);
    EmptyReportSatisfiesIff(root, completed);
  }

  /** The converse fails: a satisfied `or` still reports its other, unsatisfied branch. */
  lemma {:induction false} SatisfiedOrStillReports(done: string, other: string)
    requires done != other
    ensures var a, b := Leaf("a", "", [done], 1), Leaf("b", "", [other], 1);
            && Satisfied(Or("root", "", [a, b]), {done})
            && Report(Leaves(Or("root", "", [a, b])), {done}) == [Unsatisfied("b", "b", [other], 1, [])]
  {
    var a, b := Leaf("a", "", [done], 1), Leaf("b", "", [other], 1);
    var both := [a, b];
    assert [done][1..] == [] && [other][1..] == [];
    assert Already([done], {done}) == [done] && Already([other], {done}) == [];
    assert a in both && Satisfied(a, {done});
    assert both[1..] == [b] && [b][1..] == [];
    assert AllLeaves([b]) == [b] + AllLeaves([]);
    assert AllLeaves(both) == [a] + AllLeaves([b]) == both;
    assert Report([b], {done}) == [Entry(b, {done})] + Report([], {done});
    assert Report(both, {done}) == Report([b], {done});
  }
}
