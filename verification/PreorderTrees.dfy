/** The child-count stream of a decoded tree (`tree_pending` in scripts/s06_protocol.py).

    `root` sets the number of nodes still owed to 0 (nil) or 1, every `tree_node`
    pays one and owes its children, and the stage completes with nothing owed. */
module PreorderTrees {
  import opened Results

  datatype Tree = Node(children: seq<Tree>)

  /** One `tree_node` observation. */
  function Owe(pending: nat, children: int): (r: Verdict<nat>)
  {
    if pending < 1 || children < 0 then Rejected else Accepted(pending + children - 1)
  }

  /** What is owed after the whole sequence of observations. */
  function Owed(pending: nat, counts: seq<int>): Verdict<nat>
    decreases |counts|
  {
    if counts == [] then Accepted(pending)
    else
      var next :- Owe(pending, counts[0]);
      Owed(next, counts[1..])
  }

  lemma {:induction false} OwedSnoc(pending: nat, counts: seq<int>, last: int)
    ensures Owed(pending, counts + [last]) ==
            if Owed(pending, counts).Rejected? then Rejected else Owe(Owed(pending, counts).value, last)
    decreases |counts|
  {
    var all := counts + [last];
    if counts == [] {
      assert all == [last] && all[1..] == [];
    } else {
      assert all[1..] == counts[1..] + [last];
      if Owe(pending, counts[0]).Accepted? {
        OwedSnoc(Owe(pending, counts[0]).value, counts[1..], last);
      }
    }
  }

  /** The pre-order serialisation: a node's child count, then its children. */
  function Preorder(tree: Tree): seq<int>
    decreases tree, 0
  {
    [|tree.children|] + PreorderForest(tree.children)
  }

  function PreorderForest(trees: seq<Tree>): seq<int>
    decreases trees, 1
  {
    if trees == [] then [] else Preorder(trees[0]) + PreorderForest(trees[1..])
  }

  lemma {:induction false} ForestConcat(left: seq<Tree>, right: seq<Tree>)
    ensures PreorderForest(left + right) == PreorderForest(left) + PreorderForest(right)
  {
    var all := left + right;
    if left == [] {
      assert all == right;
    } else {
      ForestConcat(left[1..], right);
      var first := Preorder(left[0]);
      var middle, last := PreorderForest(left[1..]), PreorderForest(right);
      assert all[0] == left[0] && all[1..] == left[1..] + right;
      assert PreorderForest(all) == first + (middle + last) == (first + middle) + last;
    }
  }

  /** Opening the first tree of a forest drops exactly its child count. */
  lemma {:induction false} OpenFirst(trees: seq<Tree>)
    requires trees != []
    ensures var children := trees[0].children;
            PreorderForest(trees) == [|children|] + PreorderForest(children + trees[1..])
  {
    ForestConcat(trees[0].children, trees[1..]);
  }

  /** Soundness: a forest of `pending` trees pays off everything that is owed. */
  lemma {:induction false} ForestSettles(trees: seq<Tree>)
    ensures Owed(|trees|, PreorderForest(trees)) == Accepted(0)
    decreases |PreorderForest(trees)|
  {
    if trees == [] {
    } else {
      OpenFirst(trees);
      var unrolled := trees[0].children + trees[1..];
      ForestSettles(unrolled);
      assert PreorderForest(trees)[1..] == PreorderForest(unrolled);
      assert |unrolled| == |trees| + |trees[0].children| - 1;
    }
  }

  /** The forest that a settled count sequence spells. */
  function Rebuild(pending: nat, counts: seq<int>): (trees: seq<Tree>)
    requires Owed(pending, counts) == Accepted(0)
    ensures |trees| == pending
    ensures PreorderForest(trees) == counts
    decreases |counts|
  {
    if counts == [] then []
    else
      var arity := counts[0];
      var unrolled := Rebuild(pending + arity - 1, counts[1..]);
      var trees := [Node(unrolled[..arity])] + unrolled[arity..];
      assert PreorderForest(trees) == counts by {
        OpenFirst(trees);
        assert unrolled[..arity] + unrolled[arity..] == unrolled;
        assert trees[1..] == unrolled[arity..];
      }
      trees
  }

  /** No two forests of one size share a serialisation. */
  lemma {:induction false} ForestUnique(trees: seq<Tree>, others: seq<Tree>)
    requires |trees| == |others|
    requires PreorderForest(trees) == PreorderForest(others)
    ensures trees == others
    decreases |PreorderForest(trees)|
  {
    if trees != [] {
      OpenFirst(trees);
      OpenFirst(others);
      var a, b := trees[0].children, others[0].children;
      assert PreorderForest(trees)[0] == |a| && PreorderForest(others)[0] == |b|;
      var unrolled, unrolledOther := a + trees[1..], b + others[1..];
      assert PreorderForest(trees)[1..] == PreorderForest(unrolled);
      assert PreorderForest(others)[1..] == PreorderForest(unrolledOther);
      ForestUnique(unrolled, unrolledOther);
      assert a == unrolled[..|a|] == unrolledOther[..|a|] == b;
      assert trees[1..] == unrolled[|a|..] == unrolledOther[|a|..] == others[1..];
      assert trees == [trees[0]] + trees[1..];
      assert others == [others[0]] + others[1..];
    }
  }

  ghost predicate Serialises(trees: seq<Tree>, pending: nat, counts: seq<int>) {
    |trees| == pending && PreorderForest(trees) == counts
  }

  /** The counts settle exactly when they are the pre-order serialisation of a
      forest of that many trees, and then of one forest only. */
  lemma SettledIffPreorder(pending: nat, counts: seq<int>)
    ensures Owed(pending, counts) == Accepted(0) <==> exists trees :: Serialises(trees, pending, counts)
    ensures forall trees, others ::
              Serialises(trees, pending, counts) && Serialises(others, pending, counts) ==> trees == others
  {
    if Owed(pending, counts) == Accepted(0) {
      assert Serialises(Rebuild(pending, counts), pending, counts);
    }
    forall trees | Serialises(trees, pending, counts)
      ensures Owed(pending, counts) == Accepted(0)
    {
      ForestSettles(trees);
    }
    forall trees, others | Serialises(trees, pending, counts) && Serialises(others, pending, counts)
      ensures trees == others
    {
      ForestUnique(trees, others);
    }
  }

  /** A non-nil root settles exactly on one tree's serialisation; a nil root only
      on the empty sequence. */
  lemma TreeOrNil(counts: seq<int>)
    ensures Owed(1, counts) == Accepted(0) <==> exists tree :: Preorder(tree) == counts
    ensures forall tree, other :: Preorder(tree) == counts && Preorder(other) == counts ==> tree == other
    ensures Owed(0, counts) == Accepted(0) <==> counts == []
  {
    SettledIffPreorder(1, counts);
    forall tree
      ensures PreorderForest([tree]) == Preorder(tree)
    {
      assert [tree][1..] == [];
      assert PreorderForest([tree]) == Preorder(tree) + [];
    }
    if Owed(1, counts) == Accepted(0) {
      var trees := Rebuild(1, counts);
      assert trees == [trees[0]];
      assert Preorder(trees[0]) == counts;
    }
    if tree :| Preorder(tree) == counts {
      assert Serialises([tree], 1, counts);
    }
    forall tree, other | Preorder(tree) == counts && Preorder(other) == counts
      ensures tree == other
    {
      assert Serialises([tree], 1, counts) && Serialises([other], 1, counts);
      assert [tree][0] == [other][0];
    }
  }
}
