/** The AA-tree of usual/aatree.c.

 The first part treats trees as values and proves that insertion and removal keep search
 order and the level rules and act as set insertion and removal.  The second part is the
 tree of linked nodes with a shared NIL node; each operation is proved to turn a heap
 that represents t into one that represents the result of the value operation on t.
 */
module AATrees {
  import opened Prelude

  /** `struct AANode`.  The key belongs to the surrounding user object and never changes. */
  class Node {
    const key: int
    var left: Node
    var right: Node
    var level: int

    /** The NIL node: level 0 and its own child on both sides. */
    constructor Nil()
      ensures left == this && right == this && level == 0
    {
      key := 0;
      level := 0;
      left := this;
      right := this;
    }

    /** A user node that is not yet in a tree. */
    constructor (key: int, nil: Node)
      ensures this.key == key
    {
      this.key := key;
      level := 0;
      left := nil;
      right := nil;
    }
  }

  // ----- trees as values

  datatype Tree = Leaf | Bin(node: Node, level: int, left: Tree, right: Tree)

  ghost function Level(t: Tree): int { if t.Leaf? then 0 else t.level }

  ghost function Right(t: Tree): Tree { if t.Leaf? then Leaf else t.right }

  ghost function Nodes(t: Tree): set<Node> {
    if t.Leaf? then {} else {t.node} + Nodes(t.left) + Nodes(t.right)
  }

  ghost function Keys(t: Tree): set<int> {
    if t.Leaf? then {} else {t.node.key} + Keys(t.left) + Keys(t.right)
  }

  ghost function Count(t: Tree): nat {
    if t.Leaf? then 0 else 1 + Count(t.left) + Count(t.right)
  }

  ghost function Height(t: Tree): nat {
    if t.Leaf? then 0
    else 1 + if Height(t.left) > Height(t.right) then Height(t.left) else Height(t.right)
  }

  ghost predicate Ordered(t: Tree) {
    t.Bin? ==>
      && Ordered(t.left) && Ordered(t.right)
      && (forall k :: k in Keys(t.left) ==> k < t.node.key)
      && (forall k :: k in Keys(t.right) ==> t.node.key < k)
  }

  /** The level rules: a left child is one level lower, a right child at most one level lower,
      and no two right links in a row stay on a level. */
  ghost predicate Balanced(t: Tree) {
    t.Bin? ==>
      && Balanced(t.left) && Balanced(t.right)
      && t.level >= 1
      && Level(t.left) == t.level - 1
      && t.level - 1 <= Level(t.right) <= t.level
      && Level(Right(t.right)) < t.level
  }

  /** A right link on the level of the root. */
  ghost predicate Red(t: Tree) { t.Bin? && Level(t.right) == t.level }

  // ----- rotations

  ghost function Skew(t: Tree): Tree {
    if t.Bin? && t.left.Bin? && t.level == t.left.level then
      var y := t.left;
      Bin(y.node, y.level, y.left, Bin(t.node, t.level, y.right, t.right))
    else t
  }

  ghost function Split(t: Tree): Tree {
    if t.Bin? && t.right.Bin? && t.right.right.Bin? && t.level == t.right.right.level then
      var y := t.right;
      Bin(y.node, y.level + 1, Bin(t.node, t.level, t.left, y.left), y.right)
    else t
  }

  /** rebalance_on_remove, step by step. */
  ghost function Lower(t: Tree): Tree
    requires t.Bin?
  {
    var l := t.level - 1;
    Bin(t.node, l, t.left, if t.right.Bin? && t.right.level > l then t.right.(level := l) else t.right)
  }

  ghost predicate HasGap(t: Tree) {
    t.Bin? && (Level(t.left) < t.level - 1 || Level(t.right) < t.level - 1)
  }

  ghost function Skews(t: Tree): Tree
    requires t.Bin?
  {
    var a := Skew(t);
    var b := a.(right := Skew(a.right));
    if b.right.Bin? then b.(right := b.right.(right := Skew(b.right.right))) else b
  }

  ghost function Splits(t: Tree): Tree
    requires t.Bin?
  {
    var a := Split(t);
    a.(right := Split(a.right))
  }

  ghost function Rebalance(t: Tree): Tree {
    if HasGap(t) then Splits(Skews(Lower(t))) else t
  }

  // ----- insertion

  ghost function Inserted(t: Tree, node: Node): Tree {
    if t.Leaf? then Bin(node, 1, Leaf, Leaf)
    else if node.key > t.node.key then Split(Skew(t.(right := Inserted(t.right, node))))
    else if node.key < t.node.key then Split(Skew(t.(left := Inserted(t.left, node))))
    else t
  }

  /** Skew and split neither gain nor lose nodes, and keep the order. */
  lemma {:induction false} SkewKeeps(t: Tree)
    requires Ordered(t)
    ensures Keys(Skew(t)) == Keys(t) && Nodes(Skew(t)) == Nodes(t) && Count(Skew(t)) == Count(t)
    ensures Ordered(Skew(t))
  {
    if Skew(t) != t {
      var y, r := t.left, Skew(t);
      assert Ordered(y) && y.node.key in Keys(y);
      assert Keys(y.left) <= Keys(y) && Keys(y.right) <= Keys(y);
      assert Ordered(r.right);
    }
  }

  lemma {:induction false} SplitKeeps(t: Tree)
    requires Ordered(t)
    ensures Keys(Split(t)) == Keys(t) && Nodes(Split(t)) == Nodes(t) && Count(Split(t)) == Count(t)
    ensures Ordered(Split(t))
  {
    if Split(t) != t {
      var y, r := t.right, Split(t);
      assert Ordered(y) && y.node.key in Keys(y);
      assert Keys(y.left) <= Keys(y) && Keys(y.right) <= Keys(y);
      assert Ordered(r.left);
    }
  }

  /** What insertion below may do to a balanced subtree: keep its level, or raise it by one, in
      which case the new root has no red right link and the old root had one (or was empty). */
  ghost predicate Grown(t: Tree, r: Tree) {
    && Balanced(r) && r.Bin?
    && (|| Level(r) == Level(t)
        || (Level(r) == Level(t) + 1 && !Red(r) && (t.Bin? ==> Red(t))))
  }

  lemma {:induction false} InsertBalanced(t: Tree, node: Node)
    requires Balanced(t)
    ensures Grown(t, Inserted(t, node))
  {
    if t.Bin? {
      if node.key > t.node.key {
        InsertBalanced(t.right, node);
        GrownRight(t, Inserted(t.right, node));
      } else if node.key < t.node.key {
        InsertBalanced(t.left, node);
        GrownLeft(t, Inserted(t.left, node));
      }
    }
  }

  lemma {:induction false} GrownRight(t: Tree, r: Tree)
    requires t.Bin? && Balanced(t) && Grown(t.right, r)
    ensures Grown(t, Split(Skew(t.(right := r))))
  {
    var u := t.(right := r);
    assert Skew(u) == u;
    assert Level(r) <= t.level;
    if Split(u) != u {
      assert Balanced(r.right) && Balanced(r.left);
      assert Balanced(Split(u).left);
    }
  }

  lemma {:induction false} GrownLeft(t: Tree, l: Tree)
    requires t.Bin? && Balanced(t) && Grown(t.left, l)
    ensures Grown(t, Split(Skew(t.(left := l))))
  {
    var u := t.(left := l);
    if Skew(u) != u {
      var v := Skew(u);
      assert Balanced(l.left) && Balanced(l.right);
      assert Balanced(v.right);
      if Split(v) != v {
        assert Balanced(Split(v).left);
      }
    }
  }

  /** Insertion adds the key, and the node only if the key is new. */
  lemma {:induction false} InsertSet(t: Tree, node: Node)
    requires Ordered(t)
    ensures Ordered(Inserted(t, node)) && Keys(Inserted(t, node)) == Keys(t) + {node.key}
    ensures Count(Inserted(t, node)) == Count(t) + if node.key in Keys(t) then 0 else 1
    ensures Nodes(Inserted(t, node)) == Nodes(t) + if node.key in Keys(t) then {} else {node}
  {
    if t.Bin? {
      if node.key > t.node.key {
        InsertSet(t.right, node);
        InsertSetRight(t, node, Inserted(t.right, node));
      } else if node.key < t.node.key {
        InsertSet(t.left, node);
        InsertSetLeft(t, node, Inserted(t.left, node));
      }
    }
  }

  lemma {:induction false} InsertSetRight(t: Tree, node: Node, r: Tree)
    requires t.Bin? && Ordered(t) && node.key > t.node.key
    requires Ordered(r) && Keys(r) == Keys(t.right) + {node.key}
    ensures Ordered(Split(Skew(t.(right := r)))) && Keys(Split(Skew(t.(right := r)))) == Keys(t) + {node.key}
    ensures Nodes(Split(Skew(t.(right := r)))) == {t.node} + Nodes(t.left) + Nodes(r)
    ensures Count(Split(Skew(t.(right := r)))) == 1 + Count(t.left) + Count(r)
    ensures node.key in Keys(t) <==> node.key in Keys(t.right)
  {
    var u := t.(right := r);
    assert Ordered(u);
    SkewKeeps(u);
    SplitKeeps(Skew(u));
  }

  lemma {:induction false} InsertSetLeft(t: Tree, node: Node, l: Tree)
    requires t.Bin? && Ordered(t) && node.key < t.node.key
    requires Ordered(l) && Keys(l) == Keys(t.left) + {node.key}
    ensures Ordered(Split(Skew(t.(left := l)))) && Keys(Split(Skew(t.(left := l)))) == Keys(t) + {node.key}
    ensures Nodes(Split(Skew(t.(left := l)))) == {t.node} + Nodes(l) + Nodes(t.right)
    ensures Count(Split(Skew(t.(left := l)))) == 1 + Count(l) + Count(t.right)
    ensures node.key in Keys(t) <==> node.key in Keys(t.left)
  {
    var u := t.(left := l);
    assert Ordered(u);
    SkewKeeps(u);
    SplitKeeps(Skew(u));
  }

  // ----- removal

  /** Take the leftmost node out of a tree. */
  ghost function WithoutLeftmost(t: Tree): Tree
    requires t.Bin?
  {
    if t.left.Leaf? then t.right else Rebalance(t.(left := WithoutLeftmost(t.left)))
  }

  ghost function Leftmost(t: Tree): Node
    requires t.Bin?
  {
    if t.left.Leaf? then t.node else Leftmost(t.left)
  }

  /** The tree left when the root is dropped. */
  ghost function DropRoot(t: Tree): Tree
    requires t.Bin?
  {
    if t.left.Leaf? then t.right
    else if t.right.Leaf? then t.left
    else Bin(Leftmost(t.right), t.level, t.left, WithoutLeftmost(t.right))
  }

  ghost function Removed(t: Tree, key: int): Tree {
    if t.Leaf? then t
    else if key > t.node.key then Rebalance(t.(right := Removed(t.right, key)))
    else if key < t.node.key then Rebalance(t.(left := Removed(t.left, key)))
    else Rebalance(DropRoot(t))
  }

  /** What removal below may do to a balanced subtree: lower its level by one, or keep it
      without making the link to its right child red. */
  ghost predicate Shrunk(t: Tree, r: Tree) {
    && Balanced(r)
    && ((Level(r) == Level(t) && (Red(r) ==> Red(t))) || Level(r) == Level(t) - 1)
  }

  /** Balanced but for at most one child that is one level too low. */
  ghost predicate NearlyBalanced(t: Tree) {
    && t.Bin? && t.level >= 1 && Balanced(t.left) && Balanced(t.right)
    && (|| (Level(t.left) == t.level - 1 && Level(t.right) == t.level - 2)
        || (t.level - 2 <= Level(t.left) <= t.level - 1 && t.level - 1 <= Level(t.right) <= t.level
        && Level(Right(t.right)) < t.level))
  }

  lemma {:induction false} Parts(t: Tree)
    requires t.Bin? && Balanced(t)
    ensures Balanced(t.left) && Balanced(t.right) && t.level >= 1 && Level(t.left) == t.level - 1
    ensures t.level - 1 <= Level(t.right) <= t.level && Level(Right(t.right)) < t.level
  {}

  lemma {:induction false} LevelPositive(t: Tree)
    requires Balanced(t)
    ensures Level(t) >= 0 && (t.Leaf? <==> Level(t) == 0)
  {}

  /** Repair when the right child is too low. */
  lemma {:induction false} RepairRight(t: Tree)
    requires NearlyBalanced(t) && Level(t.right) == t.level - 2
    ensures Balanced(Rebalance(t)) && t.level - 1 <= Level(Rebalance(t)) <= t.level
    ensures Level(Rebalance(t)) == t.level ==> !Red(Rebalance(t))
  {
    var l, y := t.level - 1, t.left;
    LevelPositive(t.right);
    Parts(y);
    LevelPositive(y.right);
    var low := Bin(t.node, l, y, t.right);
    assert Lower(t) == low;
    var x := Bin(t.node, l, y.right, t.right);
    assert Skew(low) == Bin(y.node, l, y.left, x);
    if Level(y.right) == l {
      var z := y.right;
      Parts(z);
      var x' := Bin(t.node, l, z.right, t.right);
      var z' := Bin(z.node, l, z.left, x');
      assert Skew(x) == z' && Skew(x') == x';
      assert Skews(low) == Bin(y.node, l, y.left, z');
      var y' := Bin(y.node, l, y.left, z.left);
      assert Rebalance(t) == Bin(z.node, l + 1, y', x');
      assert Balanced(x') && Balanced(y');
    } else {
      assert Skew(x) == x && Skew(t.right) == t.right;
      assert Skews(low) == Bin(y.node, l, y.left, x);
      assert Rebalance(t) == Bin(y.node, l, y.left, x);
      assert Balanced(x);
    }
  }

  /** Repair when the left child is too low and the right child is not red. */
  lemma {:induction false} RepairLeftBlack(t: Tree)
    requires NearlyBalanced(t) && Level(t.left) == t.level - 2 && Level(t.right) == t.level - 1
    ensures Balanced(Rebalance(t)) && t.level - 1 <= Level(Rebalance(t)) <= t.level
    ensures Level(Rebalance(t)) == t.level ==> !Red(Rebalance(t))
  {
    var l, r := t.level - 1, t.right;
    LevelPositive(t.left);
    Parts(r);
    LevelPositive(r.right);
    if r.right.Bin? {
      Parts(r.right);
    }
    var low := Bin(t.node, l, t.left, r);
    assert Lower(t) == low && Skew(low) == low && Skew(r) == r && Skew(r.right) == r.right;
    assert Skews(low) == low;
    if Level(r.right) == l {
      var x := Bin(t.node, l, t.left, r.left);
      assert Split(low) == Bin(r.node, l + 1, x, r.right);
      assert Split(r.right) == r.right;
      assert Rebalance(t) == Bin(r.node, l + 1, x, r.right);
      assert Balanced(x);
    } else {
      assert Split(r) == r;
      assert Rebalance(t) == low;
    }
  }

  /** Repair when the left child is too low and the right child is red. */
  lemma {:induction false} RepairLeftRed(t: Tree)
    requires NearlyBalanced(t) && Level(t.left) == t.level - 2 && Level(t.right) == t.level
    ensures Balanced(Rebalance(t)) && Level(Rebalance(t)) == t.level
  {
    var l, r := t.level - 1, t.right;
    LevelPositive(t.left);
    Parts(r);
    var rl, rr := r.left, r.right;
    LevelPositive(rl);
    LevelPositive(rr);
    Parts(rl);
    Parts(rr);
    LevelPositive(rl.right);
    LevelPositive(rr.right);
    var low := Bin(t.node, l, t.left, Bin(r.node, l, rl, rr));
    assert Lower(t) == low && Skew(low) == low;
    var x := Bin(t.node, l, t.left, rl.left);
    assert Balanced(x);
    if Level(rl.right) == l {
      var rlr := rl.right;
      Parts(rlr);
      var r' := Bin(r.node, l, rlr.right, rr);
      var z := Bin(rlr.node, l, rlr.left, r');
      assert Skews(low) == Bin(t.node, l, t.left, Bin(rl.node, l, rl.left, z));
      assert Split(Skews(low)) == Bin(rl.node, l + 1, x, z);
      var z' := Bin(rlr.node, l, rlr.left, rlr.right);
      assert Split(z) == Bin(r.node, l + 1, z', rr);
      assert Balanced(z') && Balanced(Split(z));
      assert Rebalance(t) == Bin(rl.node, l + 1, x, Split(z));
    } else {
      var r' := Bin(r.node, l, rl.right, rr);
      assert Skews(low) == Bin(t.node, l, t.left, Bin(rl.node, l, rl.left, r'));
      assert Split(Skews(low)) == Bin(rl.node, l + 1, x, r');
      assert Rebalance(t) == Bin(rl.node, l + 1, x, Split(r'));
      if Level(rr.right) == l {
        var r'' := Bin(r.node, l, rl.right, rr.left);
        assert Split(r') == Bin(rr.node, l + 1, r'', rr.right);
        assert Balanced(r'');
      } else {
        assert Split(r') == r';
      }
      assert Balanced(Split(r'));
    }
  }

  lemma {:induction false} RebalanceBalanced(t: Tree)
    requires NearlyBalanced(t)
    ensures Shrunk(t, Rebalance(t))
  {
    if HasGap(t) {
      if Level(t.right) == t.level - 2 {
        RepairRight(t);
      } else if Level(t.right) == t.level - 1 {
        RepairLeftBlack(t);
      } else {
        RepairLeftRed(t);
      }
    }
  }

  lemma {:induction false} WithoutLeftmostBalanced(t: Tree)
    requires t.Bin? && Balanced(t)
    ensures Shrunk(t, WithoutLeftmost(t))
  {
    if t.left.Bin? {
      WithoutLeftmostBalanced(t.left);
      RebalanceBalanced(t.(left := WithoutLeftmost(t.left)));
    }
  }

  /** Removal keeps the level rules. */
  lemma {:induction false} RemoveBalanced(t: Tree, key: int)
    requires Balanced(t)
    ensures Shrunk(t, Removed(t, key))
  {
    if t.Bin? {
      if key > t.node.key {
        RemoveBalanced(t.right, key);
        RebalanceBalanced(t.(right := Removed(t.right, key)));
      } else if key < t.node.key {
        RemoveBalanced(t.left, key);
        RebalanceBalanced(t.(left := Removed(t.left, key)));
      } else if t.left.Bin? {
        LevelPositive(t.left);
        LevelPositive(t.right);
        WithoutLeftmostBalanced(t.right);
        RebalanceBalanced(DropRoot(t));
      } else {
        assert Rebalance(t.right) == t.right;
      }
    }
  }

  // ----- removal as an operation on sets

  /** u is an ordered tree over the same nodes as t. */
  ghost predicate SameNodes(t: Tree, u: Tree) {
    Keys(u) == Keys(t) && Nodes(u) == Nodes(t) && Count(u) == Count(t) && Ordered(u)
  }

  lemma {:induction false} ReplaceRight(t: Tree, r: Tree)
    requires t.Bin? && Ordered(t) && SameNodes(t.right, r)
    ensures SameNodes(t, t.(right := r))
  {}

  lemma {:induction false} SkewsKeep(t: Tree)
    requires t.Bin? && Ordered(t)
    ensures SameNodes(t, Skews(t)) && Skews(t).Bin?
  {
    var a := Skew(t);
    SkewKeeps(t);
    SkewKeeps(a.right);
    ReplaceRight(a, Skew(a.right));
    var b := a.(right := Skew(a.right));
    if b.right.Bin? {
      SkewKeeps(b.right.right);
      ReplaceRight(b.right, Skew(b.right.right));
      ReplaceRight(b, b.right.(right := Skew(b.right.right)));
    }
  }

  lemma {:induction false} SplitsKeep(t: Tree)
    requires t.Bin? && Ordered(t)
    ensures SameNodes(t, Splits(t))
  {
    var a := Split(t);
    SplitKeeps(t);
    SplitKeeps(a.right);
    ReplaceRight(a, Split(a.right));
  }

  lemma {:induction false} RebalanceKeeps(t: Tree)
    requires Ordered(t)
    ensures SameNodes(t, Rebalance(t))
  {
    if HasGap(t) {
      var r := if t.right.Bin? && t.right.level > t.level - 1 then t.right.(level := t.level - 1) else t.right;
      assert SameNodes(t.right, r);
      ReplaceRight(t, r);
      var low := Lower(t);
      assert SameNodes(t, low);
      SkewsKeep(low);
      SplitsKeep(Skews(low));
    }
  }

  lemma {:induction false} NodeKeys(t: Tree, n: Node)
    requires n in Nodes(t)
    ensures n.key in Keys(t)
  {
    if n != t.node {
      if n in Nodes(t.left) {
        NodeKeys(t.left, n);
      } else {
        NodeKeys(t.right, n);
      }
    }
  }

  /** Taking out the leftmost node takes out the smallest key. */
  lemma {:induction false} WithoutLeftmostSet(t: Tree)
    requires t.Bin? && Ordered(t)
    ensures var w, n := WithoutLeftmost(t), Leftmost(t);
      && Ordered(w) && Keys(t) == Keys(w) + {n.key} && Nodes(t) == Nodes(w) + {n} && Count(t) == Count(w) + 1
      && (forall k :: k in Keys(w) ==> n.key < k)
  {
    if t.left.Bin? {
      WithoutLeftmostSet(t.left);
      var u := t.(left := WithoutLeftmost(t.left));
      assert Keys(u.left) <= Keys(t.left);
      assert Leftmost(t).key in Keys(t.left);
      assert Ordered(u);
      RebalanceKeeps(u);
    }
  }

  lemma {:induction false} DropRootSet(t: Tree)
    requires t.Bin? && Ordered(t)
    ensures var r := DropRoot(t);
      && Ordered(r) && Keys(r) == Keys(t) - {t.node.key} && Nodes(t) == Nodes(r) + {t.node} && Count(t) == Count(r) + 1
  {
    if t.left.Bin? && t.right.Bin? {
      WithoutLeftmostSet(t.right);
      var r := DropRoot(t);
      assert r.node.key in Keys(t.right);
      assert Ordered(r);
    }
  }

  /** Removal takes out exactly the key, and with it exactly the node that carries it. */
  lemma {:induction false} RemoveSet(t: Tree, key: int)
    requires Ordered(t)
    ensures Ordered(Removed(t, key)) && Keys(Removed(t, key)) == Keys(t) - {key}
    ensures Count(Removed(t, key)) == Count(t) - if key in Keys(t) then 1 else 0
    ensures Nodes(Removed(t, key)) == set n | n in Nodes(t) && n.key != key
  {
    if t.Bin? {
      if key > t.node.key {
        RemoveSet(t.right, key);
        RemoveSetRight(t, key, Removed(t.right, key));
      } else if key < t.node.key {
        RemoveSet(t.left, key);
        RemoveSetLeft(t, key, Removed(t.left, key));
      } else {
        DropRootSet(t);
        RebalanceKeeps(DropRoot(t));
        DroppedNodes(t, DropRoot(t));
      }
    }
  }

  lemma {:induction false} DroppedNodes(t: Tree, r: Tree)
    requires t.Bin? && Keys(r) == Keys(t) - {t.node.key} && Nodes(t) == Nodes(r) + {t.node}
    ensures Nodes(r) == set n | n in Nodes(t) && n.key != t.node.key
  {
    forall n | n in Nodes(r) ensures n.key != t.node.key {
      NodeKeys(r, n);
    }
  }

  lemma KeyElsewhere(t: Tree, key: int)
    requires key !in Keys(t)
    ensures forall n :: n in Nodes(t) ==> n.key != key
  {
    forall n | n in Nodes(t) ensures n.key != key {
      NodeKeys(t, n);
    }
  }

  lemma {:induction false} RemoveSetRight(t: Tree, key: int, r: Tree)
    requires t.Bin? && Ordered(t) && key > t.node.key && Ordered(r) && Keys(r) == Keys(t.right) - {key}
    requires Nodes(r) == set n | n in Nodes(t.right) && n.key != key
    ensures SameNodes(t.(right := r), Rebalance(t.(right := r)))
    ensures Keys(t.(right := r)) == Keys(t) - {key} && (key in Keys(t) <==> key in Keys(t.right))
    ensures Nodes(t.(right := r)) == set n | n in Nodes(t) && n.key != key
  {
    KeyElsewhere(t.left, key);
    assert Ordered(t.(right := r));
    RebalanceKeeps(t.(right := r));
  }

  lemma {:induction false} RemoveSetLeft(t: Tree, key: int, l: Tree)
    requires t.Bin? && Ordered(t) && key < t.node.key && Ordered(l) && Keys(l) == Keys(t.left) - {key}
    requires Nodes(l) == set n | n in Nodes(t.left) && n.key != key
    ensures SameNodes(t.(left := l), Rebalance(t.(left := l)))
    ensures Keys(t.(left := l)) == Keys(t) - {key} && (key in Keys(t) <==> key in Keys(t.left))
    ensures Nodes(t.(left := l)) == set n | n in Nodes(t) && n.key != key
  {
    KeyElsewhere(t.right, key);
    assert Ordered(t.(left := l));
    RebalanceKeeps(t.(left := l));
  }

  // ----- height

  /** A balanced tree is at most twice as high as its level, and has at least 2^level - 1 nodes. */
  lemma {:induction false} HeightBound(t: Tree)
    requires Balanced(t)
    ensures Level(t) >= 0 && Height(t) <= 2 * Level(t) && (t.Bin? && !Red(t) ==> Height(t) <= 2 * Level(t) - 1)
    ensures Count(t) + 1 >= Pow2(Level(t))
  {
    if t.Bin? {
      HeightBound(t.left);
      HeightBound(t.right);
      Pow2Grows(t.level - 1, Level(t.right));
    }
  }

  // ----- the tree in memory

  ghost predicate NilOk(nil: Node)
    reads nil
  {
    nil.left == nil && nil.right == nil && nil.level == 0
  }

  /** The linked nodes from x on form the tree t, without sharing; fp is the set of its nodes. */
  ghost predicate Shape(nil: Node, x: Node, t: Tree, fp: set<Node> := Nodes(t))
    reads fp
    decreases t
  {
    && fp == Nodes(t)
    && match t
       case Leaf => x == nil
       case Bin(n, level, l, r) =>
         && x == n && n != nil && n.level == level >= 1
         && n !in Nodes(l) && n !in Nodes(r) && Nodes(l) !! Nodes(r)
         && Shape(nil, n.left, l) && Shape(nil, n.right, r)
  }

  lemma {:induction false} RotateNodes(t: Tree)
    ensures Nodes(Skew(t)) == Nodes(t) && Nodes(Split(t)) == Nodes(t)
  {}

  method SkewNode(nil: Node, x: Node, ghost t: Tree) returns (r: Node)
    requires NilOk(nil) && nil !in Nodes(t) && Shape(nil, x, t)
    modifies Nodes(t)
    ensures Shape(nil, r, Skew(t))
  {
    var y := x.left;
    if x.level == y.level && x != nil {
      x.left := y.right;
      y.right := x;
      return y;
    }
    return x;
  }

  method SplitNode(nil: Node, x: Node, ghost t: Tree) returns (r: Node)
    requires NilOk(nil) && nil !in Nodes(t) && Shape(nil, x, t)
    modifies Nodes(t)
    ensures Shape(nil, r, Split(t))
  {
    var y := x.right;
    assert t.Bin? ==> Shape(nil, y, t.right);
    assert t.Bin? && t.right.Bin? ==> Shape(nil, y.right, t.right.right);
    if x.level == y.right.level && x != nil {
      x.right := y.left;
      y.left := x;
      y.level := y.level + 1;
      return y;
    }
    return x;
  }

  /** Link a changed subtree back in on the right. */
  method LinkRight(nil: Node, current: Node, right: Node, ghost t: Tree, ghost r: Tree)
    requires t.Bin? && current == t.node && current != nil && current.level == t.level >= 1
    requires Shape(nil, current.left, t.left) && Shape(nil, right, r)
    requires current !in Nodes(t.left) && current !in Nodes(r) && Nodes(t.left) !! Nodes(r)
    modifies current
    ensures Shape(nil, current, t.(right := r))
  {
    current.right := right;
  }

  method LinkLeft(nil: Node, current: Node, left: Node, ghost t: Tree, ghost l: Tree)
    requires t.Bin? && current == t.node && current != nil && current.level == t.level >= 1
    requires Shape(nil, current.right, t.right) && Shape(nil, left, l)
    requires current !in Nodes(t.right) && current !in Nodes(l) && Nodes(t.right) !! Nodes(l)
    modifies current
    ensures Shape(nil, current, t.(left := l))
  {
    current.left := left;
  }

  /** rebalance_on_insert. */
  method RebalanceOnInsert(nil: Node, current: Node, ghost t: Tree) returns (r: Node)
    requires NilOk(nil) && nil !in Nodes(t) && Shape(nil, current, t)
    modifies Nodes(t)
    ensures Shape(nil, r, Split(Skew(t)))
  {
    RotateNodes(t);
    r := SkewNode(nil, current, t);
    r := SplitNode(nil, r, Skew(t));
  }

  /** In a gap the skewed tree has a right child, so that no child link of NIL is written. */
  lemma {:induction false} SkewedHasRight(t: Tree)
    requires NearlyBalanced(t) && HasGap(t)
    ensures Skew(Lower(t)).right.Bin? && Skew(Skew(Lower(t)).right).Bin? && Lower(t).level >= 1
  {
    LevelPositive(t.left);
    LevelPositive(t.right);
  }

  method LowerNode(nil: Node, current: Node, ghost t: Tree)
    requires NilOk(nil) && nil !in Nodes(t) && Shape(nil, current, t) && t.Bin? && t.level >= 2
    modifies Nodes(t)
    ensures Shape(nil, current, Lower(t)) && Nodes(Lower(t)) == Nodes(t)
  {
    assert Shape(nil, current.right, t.right);
    current.level := current.level - 1;
    if current.right.level > current.level {
      current.right.level := current.level;
    }
  }

  method SkewRight(nil: Node, current: Node, ghost t: Tree)
    requires NilOk(nil) && nil !in Nodes(t) && Shape(nil, current, t) && t.Bin?
    modifies Nodes(t)
    ensures Shape(nil, current, t.(right := Skew(t.right))) && Nodes(t.(right := Skew(t.right))) == Nodes(t)
  {
    RotateNodes(t.right);
    var left := current.left;
    assert Shape(nil, left, t.left) && Nodes(t.left) !! Nodes(t.right);
    var right := SkewNode(nil, current.right, t.right);
    current.right := right;
    assert Shape(nil, left, t.left);
  }

  method SplitRight(nil: Node, current: Node, ghost t: Tree)
    requires NilOk(nil) && nil !in Nodes(t) && Shape(nil, current, t) && t.Bin?
    modifies Nodes(t)
    ensures Shape(nil, current, t.(right := Split(t.right))) && Nodes(t.(right := Split(t.right))) == Nodes(t)
  {
    RotateNodes(t.right);
    var left := current.left;
    assert Shape(nil, left, t.left) && Nodes(t.left) !! Nodes(t.right);
    var right := SplitNode(nil, current.right, t.right);
    current.right := right;
    assert Shape(nil, left, t.left);
  }

  method SkewRightRight(nil: Node, current: Node, ghost t: Tree)
    requires NilOk(nil) && nil !in Nodes(t) && Shape(nil, current, t) && t.Bin? && t.right.Bin?
    modifies Nodes(t)
    ensures Shape(nil, current, t.(right := t.right.(right := Skew(t.right.right))))
    ensures Nodes(t.(right := t.right.(right := Skew(t.right.right)))) == Nodes(t)
  {
    var left := current.left;
    assert Shape(nil, left, t.left) && Nodes(t.left) !! Nodes(t.right);
    SkewRight(nil, current.right, t.right);
    assert Shape(nil, left, t.left);
  }

  /** rebalance_on_remove: at most one child may be a level too low. */
  method RebalanceOnRemove(nil: Node, current: Node, ghost t: Tree) returns (r: Node)
    requires NilOk(nil) && nil !in Nodes(t) && Shape(nil, current, t) && (t.Bin? ==> NearlyBalanced(t))
    modifies Nodes(t)
    ensures Shape(nil, r, Rebalance(t)) && Nodes(Rebalance(t)) == Nodes(t)
  {
    r := current;
    assert t.Bin? ==> Shape(nil, r.left, t.left) && Shape(nil, r.right, t.right);
    if r.left.level < r.level - 1 || r.right.level < r.level - 1 {
      SkewedHasRight(t);
      LowerNode(nil, r, t);
      r := Reshape(nil, r, Lower(t));
    }
  }

  /** The three skews and two splits. */
  method Reshape(nil: Node, current: Node, ghost t: Tree) returns (r: Node)
    requires NilOk(nil) && nil !in Nodes(t) && Shape(nil, current, t) && t.Bin?
    requires Skew(t).right.Bin? && Skew(Skew(t).right).Bin?
    modifies Nodes(t)
    ensures Shape(nil, r, Splits(Skews(t))) && Nodes(Splits(Skews(t))) == Nodes(t)
  {
    RotateNodes(t);
    r := SkewNode(nil, current, t);
    ghost var a := Skew(t);
    SkewRight(nil, r, a);
    ghost var b := a.(right := Skew(a.right));
    SkewRightRight(nil, r, b);
    ghost var c := Skews(t);
    RotateNodes(c);
    r := SplitNode(nil, r, c);
    SplitRight(nil, r, Split(c));
  }

  class AATree {
    const nil: Node
    var root: Node
    var count: int
    /** The tree the linked nodes represent. */
    ghost var tree: Tree

    ghost predicate Valid()
      reads this, nil, Nodes(tree)
    {
      && NilOk(nil) && nil !in Nodes(tree) && Shape(nil, root, tree)
      && Ordered(tree) && Balanced(tree) && count == Count(tree)
    }

    /** aatree_init. */
    constructor (nil: Node)
      requires NilOk(nil)
      ensures Valid() && this.nil == nil && tree == Leaf
    {
      this.nil, root, count, tree := nil, nil, 0, Leaf;
    }

    /** insert_sub.  The node is written only where it is linked in, so that inserting a node
        that is already in the tree does no harm. */
    method InsertSub(current: Node, node: Node, ghost t: Tree) returns (r: Node)
      requires NilOk(nil) && nil !in Nodes(t) && node != nil && Shape(nil, current, t) && Ordered(t)
      modifies this`count, Nodes(t), node
      ensures Shape(nil, r, Inserted(t, node))
      ensures count == old(count) + if node.key in Keys(t) then 0 else 1
      ensures node.key in Keys(t) && node !in Nodes(t) ==> unchanged(node)
      decreases t, 1
    {
      if current == nil {
        node.left := nil;
        node.right := nil;
        node.level := 1;
        count := count + 1;
        return node;
      }
      if node.key > current.key {
        r := InsertRight(current, node, t);
      } else if node.key < current.key {
        r := InsertLeft(current, node, t);
      } else {
        r := current;
      }
    }

    method InsertRight(current: Node, node: Node, ghost t: Tree) returns (r: Node)
      requires NilOk(nil) && nil !in Nodes(t) && node != nil && Shape(nil, current, t) && Ordered(t)
      requires t.Bin? && node.key > t.node.key
      modifies this`count, Nodes(t), node
      ensures Shape(nil, r, Inserted(t, node))
      ensures count == old(count) + if node.key in Keys(t) then 0 else 1
      ensures node.key in Keys(t) && node !in Nodes(t) ==> unchanged(node)
      decreases t, 0
    {
      ghost var u := t.(right := Inserted(t.right, node));
      OnlyRight(t, node);
      InsertSet(t.right, node);
      var left := current.left;
      assert Shape(nil, left, t.left) && Nodes(t.left) !! Nodes(t.right);
      var right := InsertSub(current.right, node, t.right);
      assert Shape(nil, left, t.left);
      LinkRight(nil, current, right, t, u.right);
      RotateNodes(u);
      r := RebalanceOnInsert(nil, current, u);
    }

    method InsertLeft(current: Node, node: Node, ghost t: Tree) returns (r: Node)
      requires NilOk(nil) && nil !in Nodes(t) && node != nil && Shape(nil, current, t) && Ordered(t)
      requires t.Bin? && node.key < t.node.key
      modifies this`count, Nodes(t), node
      ensures Shape(nil, r, Inserted(t, node))
      ensures count == old(count) + if node.key in Keys(t) then 0 else 1
      ensures node.key in Keys(t) && node !in Nodes(t) ==> unchanged(node)
      decreases t, 0
    {
      ghost var u := t.(left := Inserted(t.left, node));
      OnlyLeft(t, node);
      InsertSet(t.left, node);
      var right := current.right;
      assert Shape(nil, right, t.right) && Nodes(t.left) !! Nodes(t.right);
      var left := InsertSub(current.left, node, t.left);
      assert Shape(nil, right, t.right);
      LinkLeft(nil, current, left, t, u.left);
      RotateNodes(u);
      r := RebalanceOnInsert(nil, current, u);
    }

    /** aatree_insert: set insertion; the node becomes part of the tree only if its key is new. */
    method Insert(node: Node)
      requires Valid() && node != nil
      modifies this, Nodes(tree), node
      ensures Valid() && Keys(tree) == old(Keys(tree)) + {node.key}
      ensures Nodes(tree) == old(Nodes(tree)) + if node.key in old(Keys(tree)) then {} else {node}
      ensures count == old(count) + if node.key in old(Keys(tree)) then 0 else 1
    {
      InsertBalanced(tree, node);
      InsertSet(tree, node);
      root := InsertSub(root, node, tree);
      tree := Inserted(tree, node);
    }

    /** steal_leftmost. */
    method StealLeftmost(current: Node, ghost t: Tree) returns (save: Node, r: Node)
      requires NilOk(nil) && nil !in Nodes(t) && Shape(nil, current, t) && t.Bin? && Ordered(t) && Balanced(t)
      modifies Nodes(t)
      ensures save == Leftmost(t) && Shape(nil, r, WithoutLeftmost(t))
      decreases t
    {
      if current.left == nil {
        assert Shape(nil, current.left, t.left);
        return current, current.right;
      }
      var right := current.right;
      assert Shape(nil, right, t.right) && Nodes(t.left) !! Nodes(t.right);
      WithoutLeftmostSet(t.left);
      WithoutLeftmostBalanced(t.left);
      ghost var u := t.(left := WithoutLeftmost(t.left));
      var left;
      save, left := StealLeftmost(current.left, t.left);
      assert Shape(nil, right, t.right);
      LinkLeft(nil, current, left, t, u.left);
      r := RebalanceOnRemove(nil, current, u);
    }

    /** drop_this_node. */
    method DropThisNode(dropped: Node, ghost t: Tree) returns (r: Node)
      requires NilOk(nil) && nil !in Nodes(t) && Shape(nil, dropped, t) && t.Bin? && Ordered(t) && Balanced(t)
      modifies this`count, Nodes(t)
      ensures Shape(nil, r, DropRoot(t)) && count == old(count) - 1
    {
      var left, right := dropped.left, dropped.right;
      assert Shape(nil, left, t.left) && Shape(nil, right, t.right);
      if left == nil {
        r := right;
      } else if right == nil {
        r := left;
      } else {
        r := ReplaceBySuccessor(dropped, t);
      }
      count := count - 1;
    }

    /** The nearest node from the right takes the place of the dropped one. */
    method ReplaceBySuccessor(dropped: Node, ghost t: Tree) returns (save: Node)
      requires NilOk(nil) && nil !in Nodes(t) && Shape(nil, dropped, t) && t.Bin? && Ordered(t) && Balanced(t)
      requires t.left.Bin? && t.right.Bin?
      modifies Nodes(t)
      ensures Shape(nil, save, DropRoot(t))
    {
      var left := dropped.left;
      assert Shape(nil, left, t.left) && Nodes(t.left) !! Nodes(t.right);
      ghost var w := WithoutLeftmost(t.right);
      StolenApart(t.right);
      var rest;
      save, rest := StealLeftmost(dropped.right, t.right);
      dropped.right := rest;
      assert Shape(nil, left, t.left) && Shape(nil, rest, w);
      TakePlace(save, dropped, t.level, t.left, w);
    }

    /** The structure copy `*new = *old`. */
    method TakePlace(save: Node, from: Node, ghost level: int, ghost l: Tree, ghost r: Tree)
      requires Shape(nil, from.left, l) && Shape(nil, from.right, r) && from.level == level >= 1
      requires save != nil && save !in Nodes(l) && save !in Nodes(r) && Nodes(l) !! Nodes(r)
      modifies save
      ensures Shape(nil, save, Bin(save, level, l, r))
    {
      save.left, save.right, save.level := from.left, from.right, from.level;
    }

    /** remove_sub. */
    method RemoveSub(current: Node, key: int, ghost t: Tree) returns (r: Node)
      requires NilOk(nil) && nil !in Nodes(t) && Shape(nil, current, t) && Ordered(t) && Balanced(t)
      modifies this`count, Nodes(t)
      ensures Shape(nil, r, Removed(t, key))
      ensures count == old(count) - if key in Keys(t) then 1 else 0
      decreases t, 1
    {
      if current == nil {
        return current;
      }
      if key > current.key {
        r := RemoveRight(current, key, t);
      } else if key < current.key {
        r := RemoveLeft(current, key, t);
      } else {
        DropRootSet(t);
        DropRootNearly(t);
        r := DropThisNode(current, t);
        r := RebalanceOnRemove(nil, r, DropRoot(t));
      }
    }

    method RemoveRight(current: Node, key: int, ghost t: Tree) returns (r: Node)
      requires NilOk(nil) && nil !in Nodes(t) && Shape(nil, current, t) && Ordered(t) && Balanced(t)
      requires t.Bin? && key > t.node.key
      modifies this`count, Nodes(t)
      ensures Shape(nil, r, Removed(t, key))
      ensures count == old(count) - if key in Keys(t) then 1 else 0
      decreases t, 0
    {
      var left := current.left;
      assert Shape(nil, left, t.left) && Nodes(t.left) !! Nodes(t.right);
      ghost var u := t.(right := Removed(t.right, key));
      RemoveSet(t.right, key);
      RemoveSetRight(t, key, u.right);
      RemoveBalanced(t.right, key);
      var right := RemoveSub(current.right, key, t.right);
      assert Shape(nil, left, t.left);
      LinkRight(nil, current, right, t, u.right);
      r := RebalanceOnRemove(nil, current, u);
    }

    method RemoveLeft(current: Node, key: int, ghost t: Tree) returns (r: Node)
      requires NilOk(nil) && nil !in Nodes(t) && Shape(nil, current, t) && Ordered(t) && Balanced(t)
      requires t.Bin? && key < t.node.key
      modifies this`count, Nodes(t)
      ensures Shape(nil, r, Removed(t, key))
      ensures count == old(count) - if key in Keys(t) then 1 else 0
      decreases t, 0
    {
      var right := current.right;
      assert Shape(nil, right, t.right) && Nodes(t.left) !! Nodes(t.right);
      ghost var u := t.(left := Removed(t.left, key));
      RemoveSet(t.left, key);
      RemoveSetLeft(t, key, u.left);
      RemoveBalanced(t.left, key);
      var left := RemoveSub(current.left, key, t.left);
      assert Shape(nil, right, t.right);
      LinkLeft(nil, current, left, t, u.left);
      r := RebalanceOnRemove(nil, current, u);
    }

    /** aatree_remove: set removal. */
    method Remove(key: int)
      requires Valid()
      modifies this, Nodes(tree)
      ensures Valid() && Keys(tree) == old(Keys(tree)) - {key}
      ensures Nodes(tree) == set n | n in old(Nodes(tree)) && n.key != key
      ensures count == old(count) - if key in old(Keys(tree)) then 1 else 0
    {
      RemoveBalanced(tree, key);
      RemoveSet(tree, key);
      root := RemoveSub(root, key, tree);
      tree := Removed(tree, key);
    }

    /** aatree_search; `steps` counts the comparisons. */
    method Search(key: int) returns (r: Node?, ghost steps: nat)
      requires Valid()
      ensures r != null <==> key in Keys(tree)
      ensures r != null ==> r in Nodes(tree) && r.key == key
      ensures steps <= 2 * Level(tree) && Pow2((steps + 1) / 2) <= count + 1
    {
      var current := root;
      ghost var t := tree;
      steps := 0;
      while current != nil
        invariant Shape(nil, current, t) && Ordered(t) && Nodes(t) <= Nodes(tree)
        invariant key in Keys(tree) <==> key in Keys(t)
        invariant steps + Height(t) <= Height(tree)
        decreases t
      {
        steps := steps + 1;
        if key > current.key {
          current, t := current.right, t.right;
        } else if key < current.key {
          current, t := current.left, t.left;
        } else {
          SearchBound(tree, steps);
          return current, steps;
        }
      }
      SearchBound(tree, steps);
      return null, steps;
    }
  }

  lemma {:induction false} SearchBound(t: Tree, steps: nat)
    requires Balanced(t) && steps <= Height(t)
    ensures Level(t) >= 0 && steps <= 2 * Level(t) && Pow2((steps + 1) / 2) <= Count(t) + 1
  {
    HeightBound(t);
    Pow2Grows((steps + 1) / 2, Level(t));
  }

  lemma {:induction false} StolenApart(t: Tree)
    requires t.Bin? && Ordered(t)
    ensures Leftmost(t) in Nodes(t) && Leftmost(t) !in Nodes(WithoutLeftmost(t))
      && Nodes(WithoutLeftmost(t)) <= Nodes(t)
  {
    WithoutLeftmostSet(t);
    if Leftmost(t) in Nodes(WithoutLeftmost(t)) {
      NodeKeys(WithoutLeftmost(t), Leftmost(t));
    }
  }

  lemma {:induction false} DropRootNearly(t: Tree)
    requires t.Bin? && Balanced(t)
    ensures DropRoot(t).Bin? ==> NearlyBalanced(DropRoot(t))
  {
    LevelPositive(t.left);
    LevelPositive(t.right);
    if t.left.Bin? && t.right.Bin? {
      WithoutLeftmostBalanced(t.right);
    } else if t.left.Leaf? && t.right.Bin? {
      Parts(t.right);
    }
  }

  /** A node whose key belongs on one side is not found anywhere else. */
  lemma {:induction false} OnlyRight(t: Tree, node: Node)
    requires t.Bin? && Ordered(t) && node.key > t.node.key
    ensures node != t.node && node !in Nodes(t.left) && (node.key in Keys(t) <==> node.key in Keys(t.right))
    ensures node in Nodes(t.right) ==> node.key in Keys(t.right)
  {
    if node in Nodes(t.left) {
      NodeKeys(t.left, node);
    }
    if node in Nodes(t.right) {
      NodeKeys(t.right, node);
    }
  }

  lemma {:induction false} OnlyLeft(t: Tree, node: Node)
    requires t.Bin? && Ordered(t) && node.key < t.node.key
    ensures node != t.node && node !in Nodes(t.right) && (node.key in Keys(t) <==> node.key in Keys(t.left))
    ensures node in Nodes(t.left) ==> node.key in Keys(t.left)
  {
    if node in Nodes(t.right) {
      NodeKeys(t.right, node);
    }
    if node in Nodes(t.left) {
      NodeKeys(t.left, node);
    }
  }
}
