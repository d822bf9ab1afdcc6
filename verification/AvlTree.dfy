/** avl_tree.c: insertion into a height-balanced search tree, in place. */
module AvlTree {
  /** A tree with the height that each node stores. */
  datatype Tree = Leaf | Node(left: Tree, key: int, height: int, right: Tree)

  function Max(a: int, b: int): int {
    if a > b then a else b
  }

  function Height(t: Tree): int {
    if t.Leaf? then -1 else t.height
  }

  function BalanceFactor(t: Tree): int
    requires t.Node?
  {
    Height(t.left) - Height(t.right)
  }

  function Make(left: Tree, key: int, right: Tree): Tree {
    Node(left, key, 1 + Max(Height(left), Height(right)), right)
  }

  // ----- What a tree should be

  /** Every stored height is the real height. */
  ghost predicate Exact(t: Tree) {
    t.Node? ==> Exact(t.left) && Exact(t.right) && t.height == 1 + Max(Height(t.left), Height(t.right))
  }

  ghost predicate Balanced(t: Tree) {
    t.Node? ==> Balanced(t.left) && Balanced(t.right) && -1 <= BalanceFactor(t) <= 1
  }

  function Keys(t: Tree): set<int> {
    if t.Leaf? then {} else Keys(t.left) + {t.key} + Keys(t.right)
  }

  ghost predicate Ordered(t: Tree) {
    t.Node? ==>
      && Ordered(t.left) && Ordered(t.right)
      && (forall k :: k in Keys(t.left) ==> k < t.key)
      && (forall k :: k in Keys(t.right) ==> t.key < k)
  }

  ghost predicate Avl(t: Tree) {
    Exact(t) && Balanced(t) && Ordered(t)
  }

  function Inorder(t: Tree): seq<int> {
    if t.Leaf? then [] else Inorder(t.left) + [t.key] + Inorder(t.right)
  }

  function Size(t: Tree): nat {
    if t.Leaf? then 0 else Size(t.left) + 1 + Size(t.right)
  }

  // ----- Insertion on values

  function RotateRight(z: Tree): Tree
    requires z.Node? && z.left.Node?
  {
    Make(z.left.left, z.left.key, Make(z.left.right, z.key, z.right))
  }

  function RotateLeft(z: Tree): Tree
    requires z.Node? && z.right.Node?
  {
    Make(Make(z.left, z.key, z.right.left), z.right.key, z.right.right)
  }

  lemma ExactNonNegative(t: Tree)
    requires Exact(t)
    ensures Height(t) >= -1 && (t.Node? ==> Height(t) >= 0)
  {
  }

  /** The four cases after one child of n has changed. */
  function Rebalance(left: Tree, key: int, right: Tree): (r: Tree)
    requires Exact(left) && Exact(right)
    ensures r.Node?
  {
    ExactNonNegative(left);
    ExactNonNegative(right);
    var n := Make(left, key, right);
    var bf := BalanceFactor(n);
    if bf > 1 && BalanceFactor(left) >= 0 then RotateRight(n)
    else if bf > 1 then
      ExactNonNegative(left.left);
      RotateRight(Make(RotateLeft(left), key, right))
    else if bf < -1 && BalanceFactor(right) <= 0 then RotateLeft(n)
    else if bf < -1 then
      ExactNonNegative(right.right);
      RotateLeft(Make(left, key, RotateRight(right)))
    else n
  }

  function Insert(t: Tree, k: int): (r: Tree)
    requires Exact(t)
    ensures Exact(r) && r.Node?
  {
    if t.Leaf? then Node(Leaf, k, 0, Leaf)
    else if k < t.key then
      var left := Insert(t.left, k);
      RebalanceExact(left, t.key, t.right);
      Rebalance(left, t.key, t.right)
    else if k > t.key then
      var right := Insert(t.right, k);
      RebalanceExact(t.left, t.key, right);
      Rebalance(t.left, t.key, right)
    else t
  }

  // ----- Order is the order of the in-order sequence

  ghost predicate Increasing(s: seq<int>) {
    forall i, j :: 0 <= i < j < |s| ==> s[i] < s[j]
  }

  lemma {:induction false} InorderKeys(t: Tree)
    ensures forall k :: k in Inorder(t) <==> k in Keys(t)
    ensures |Inorder(t)| == Size(t)
  {
    if t.Node? {
      InorderKeys(t.left);
      InorderKeys(t.right);
    }
  }

  /** The printed sequence is strictly increasing exactly for search trees. */
  lemma {:induction false} OrderedIff(t: Tree)
    ensures Ordered(t) <==> Increasing(Inorder(t))
  {
    if t.Node? {
      hide Inorder, Keys;
      OrderedIff(t.left);
      OrderedIff(t.right);
      InorderKeys(t.left);
      InorderKeys(t.right);
      var l, r := Inorder(t.left), Inorder(t.right);
      InorderNode(t);
      IncreasingParts(l, t.key, r);
    }
  }

  lemma InorderNode(t: Tree)
    requires t.Node?
    ensures Inorder(t) == Inorder(t.left) + [t.key] + Inorder(t.right)
  {
  }

  lemma IncreasingParts(l: seq<int>, k: int, r: seq<int>)
    ensures Increasing(l + [k] + r) <==>
              Increasing(l) && Increasing(r) && (forall x :: x in l ==> x < k) && (forall x :: x in r ==> k < x)
  {
    var s := l + [k] + r;
    if Increasing(s) {
      assert s[|l|] == k;
      forall i, j | 0 <= i < j < |r| ensures r[i] < r[j] { assert s[|l| + 1 + i] < s[|l| + 1 + j]; }
      forall i, j | 0 <= i < j < |l| ensures l[i] < l[j] { assert s[i] < s[j]; }
      forall x | x in l ensures x < k { var i :| 0 <= i < |l| && l[i] == x; assert s[i] < s[|l|]; }
      forall x | x in r ensures k < x { var i :| 0 <= i < |r| && r[i] == x; assert s[|l|] < s[|l| + 1 + i]; }
    }
    forall i | 0 <= i < |s| ensures if i < |l| then s[i] in l else if i == |l| then s[i] == k else s[i] in r {
      if i > |l| { assert s[i] == r[i - |l| - 1]; }
    }
  }

  // ----- What rotating and rebalancing keep

  lemma MakeIs(left: Tree, key: int, right: Tree)
    ensures Exact(left) && Exact(right) ==> Exact(Make(left, key, right))
    ensures Inorder(Make(left, key, right)) == Inorder(left) + [key] + Inorder(right)
  {
  }

  lemma RotateRightKeeps(z: Tree)
    requires z.Node? && z.left.Node?
    ensures Inorder(RotateRight(z)) == Inorder(z)
    ensures Exact(z.left) && Exact(z.right) ==> Exact(RotateRight(z))
  {
    hide Inorder;
    var y := z.left;
    MakeIs(y.right, z.key, z.right);
    MakeIs(y.left, y.key, Make(y.right, z.key, z.right));
    InorderNode(z);
    InorderNode(y);
  }

  lemma RotateLeftKeeps(z: Tree)
    requires z.Node? && z.right.Node?
    ensures Inorder(RotateLeft(z)) == Inorder(z)
    ensures Exact(z.left) && Exact(z.right) ==> Exact(RotateLeft(z))
  {
    hide Inorder;
    var y := z.right;
    MakeIs(z.left, z.key, y.left);
    MakeIs(Make(z.left, z.key, y.left), y.key, y.right);
    InorderNode(z);
    InorderNode(y);
  }

  /** Whichever case applies, the in-order sequence is that of the plain node, and stored heights are exact. */
  lemma RebalanceExact(left: Tree, key: int, right: Tree)
    requires Exact(left) && Exact(right)
    ensures Inorder(Rebalance(left, key, right)) == Inorder(left) + [key] + Inorder(right)
    ensures Exact(Rebalance(left, key, right))
  {
    hide Inorder, RotateLeft, RotateRight;
    ExactNonNegative(left);
    ExactNonNegative(right);
    var n := Make(left, key, right);
    MakeIs(left, key, right);
    var bf := BalanceFactor(n);
    if bf > 1 && BalanceFactor(left) < 0 {
      ExactNonNegative(left.left);
      RotateLeftKeeps(left);
      var l := RotateLeft(left);
      assert l.Node? by { IsMade(left); }
      MakeIs(l, key, right);
      RotateRightKeeps(Make(l, key, right));
    } else if bf > 1 {
      RotateRightKeeps(n);
    } else if bf < -1 && BalanceFactor(right) > 0 {
      ExactNonNegative(right.right);
      RotateRightKeeps(right);
      var r := RotateRight(right);
      assert r.Node? by { IsMade(right); }
      MakeIs(left, key, r);
      RotateLeftKeeps(Make(left, key, r));
    } else if bf < -1 {
      RotateLeftKeeps(n);
    }
  }

  lemma IsMade(z: Tree)
    ensures z.Node? && z.left.Node? ==> RotateRight(z).Node?
    ensures z.Node? && z.right.Node? ==> RotateLeft(z).Node?
  {
  }

  lemma RebalanceOrdered(left: Tree, key: int, right: Tree)
    requires Exact(left) && Exact(right) && Ordered(Make(left, key, right))
    ensures Ordered(Rebalance(left, key, right)) && Keys(Rebalance(left, key, right)) == Keys(left) + {key} + Keys(right)
  {
    hide Rebalance, Inorder, Exact;
    var n, r := Make(left, key, right), Rebalance(left, key, right);
    RebalanceExact(left, key, right);
    MakeIs(left, key, right);
    OrderedIff(n);
    OrderedIff(r);
    InorderKeys(n);
    InorderKeys(r);
    forall k ensures k in Keys(r) <==> k in Keys(n) {}
    assert Keys(n) == Keys(left) + {key} + Keys(right);
  }

  /** One child too high by one is repaired; the height is that of the plain node, or one less. */
  lemma RebalanceBalances(left: Tree, key: int, right: Tree)
    requires Exact(left) && Exact(right) && Balanced(left) && Balanced(right)
    requires -2 <= Height(left) - Height(right) <= 2
    ensures Balanced(Rebalance(left, key, right))
    ensures Height(Make(left, key, right)) - 1 <= Height(Rebalance(left, key, right)) <= Height(Make(left, key, right))
    ensures -1 <= Height(left) - Height(right) <= 1 ==> Rebalance(left, key, right) == Make(left, key, right)
  {
    if Height(left) == Height(right) + 2 {
      LeftHigh(left, key, right);
    } else if Height(right) == Height(left) + 2 {
      RightHigh(left, key, right);
    }
  }

  lemma LeftHigh(left: Tree, key: int, right: Tree)
    requires Exact(left) && Exact(right) && Balanced(left) && Balanced(right)
    requires Height(left) == Height(right) + 2
    ensures Balanced(Rebalance(left, key, right))
    ensures Height(left) <= Height(Rebalance(left, key, right)) <= Height(left) + 1
  {
    ExactNonNegative(right);
    if BalanceFactor(left) < 0 {
      ExactNonNegative(left.left);
      var m := left.right;
      assert Exact(m) && Balanced(m);
      assert Rebalance(left, key, right) ==
             Make(Make(left.left, left.key, m.left), m.key, Make(m.right, key, right));
    } else {
      assert Rebalance(left, key, right) == Make(left.left, left.key, Make(left.right, key, right));
    }
  }

  lemma RightHigh(left: Tree, key: int, right: Tree)
    requires Exact(left) && Exact(right) && Balanced(left) && Balanced(right)
    requires Height(right) == Height(left) + 2
    ensures Balanced(Rebalance(left, key, right))
    ensures Height(right) <= Height(Rebalance(left, key, right)) <= Height(right) + 1
  {
    ExactNonNegative(left);
    if BalanceFactor(right) > 0 {
      ExactNonNegative(right.right);
      var m := right.left;
      assert Exact(m) && Balanced(m);
      assert Rebalance(left, key, right) ==
             Make(Make(left, key, m.left), m.key, Make(m.right, right.key, right.right));
    } else {
      assert Rebalance(left, key, right) == Make(Make(left, key, right.left), right.key, right.right);
    }
  }

  lemma AvlParts(t: Tree)
    requires Avl(t) && t.Node?
    ensures Avl(t.left) && Avl(t.right) && Apart(t.left, t.key, t.right) && -1 <= Height(t.left) - Height(t.right) <= 1
    ensures Keys(t) == Keys(t.left) + {t.key} + Keys(t.right) && t == Make(t.left, t.key, t.right) && Exact(t)
  {
  }

  /** The keys on either side of a key. */
  ghost predicate Apart(left: Tree, key: int, right: Tree) {
    (forall k :: k in Keys(left) ==> k < key) && (forall k :: k in Keys(right) ==> key < k)
  }

  lemma ApartInsert(left: Tree, key: int, right: Tree, left': Tree, right': Tree, k: int)
    requires Apart(left, key, right)
    ensures k < key && Keys(left') == Keys(left) + {k} ==> Apart(left', key, right)
    ensures k > key && Keys(right') == Keys(right) + {k} ==> Apart(left, key, right')
    ensures k < key && k in Keys(left) + {key} + Keys(right) ==> k in Keys(left)
    ensures k > key && k in Keys(left) + {key} + Keys(right) ==> k in Keys(right)
  {
    hide Keys;
  }

  lemma RebalanceKeeps(left: Tree, key: int, right: Tree)
    requires Avl(left) && Avl(right) && Apart(left, key, right) && -2 <= Height(left) - Height(right) <= 2
    ensures Exact(left) && Exact(right)
    ensures Avl(Rebalance(left, key, right)) && Keys(Rebalance(left, key, right)) == Keys(left) + {key} + Keys(right)
    ensures Height(Make(left, key, right)) - 1 <= Height(Rebalance(left, key, right)) <= Height(Make(left, key, right))
    ensures -1 <= Height(left) - Height(right) <= 1 ==> Rebalance(left, key, right) == Make(left, key, right)
  {
    hide Rebalance, Inorder;
    RebalanceExact(left, key, right);
    RebalanceOrdered(left, key, right);
    RebalanceBalances(left, key, right);
  }

  lemma LeafAvl(k: int)
    ensures Avl(Node(Leaf, k, 0, Leaf)) && Keys(Node(Leaf, k, 0, Leaf)) == {k} && Keys(Leaf) == {}
  {
  }

  lemma AvlExact(t: Tree)
    requires Avl(t)
    ensures Exact(t)
  {
  }

  /** Insertion keeps order, exact heights and balance, adds exactly the key, and grows the height by at most one. */
  lemma {:induction false} InsertKeeps(t: Tree, k: int)
    requires Avl(t)
    ensures Avl(Insert(t, k)) && Keys(Insert(t, k)) == Keys(t) + {k}
    ensures Height(t) <= Height(Insert(t, k)) <= Height(t) + 1
    ensures k in Keys(t) ==> Insert(t, k) == t
  {
    hide Rebalance, Inorder, Avl, Keys, Apart, Exact;
    AvlExact(t);
    if t.Leaf? {
      LeafAvl(k);
    } else {
      AvlParts(t);
      if k < t.key {
        AvlExact(t.left);
        InsertKeeps(t.left, k);
        var left := Insert(t.left, k);
        ApartInsert(t.left, t.key, t.right, left, t.right, k);
        RebalanceKeeps(left, t.key, t.right);
      } else if k > t.key {
        AvlExact(t.right);
        InsertKeeps(t.right, k);
        var right := Insert(t.right, k);
        ApartInsert(t.left, t.key, t.right, t.left, right, k);
        RebalanceKeeps(t.left, t.key, right);
      }
    }
  }

  lemma {:induction false} KeysAreDistinct(t: Tree)
    requires Ordered(t)
    ensures |Keys(t)| == Size(t)
  {
    if t.Node? {
      KeysAreDistinct(t.left);
      KeysAreDistinct(t.right);
      assert Keys(t.left) !! {t.key};
      forall k ensures !(k in Keys(t.left) + {t.key} && k in Keys(t.right)) {}
      assert Keys(t.left) + {t.key} !! Keys(t.right);
    }
  }

  // ----- Height against size

  function Fib(n: nat): nat {
    if n < 2 then n else Fib(n - 1) + Fib(n - 2)
  }

  lemma {:induction false} FibGrows(n: nat)
    ensures Fib(n) <= Fib(n + 1)
  {
    if n > 1 { FibGrows(n - 1); }
  }

  lemma MinimumStep(h: int, a: int, b: int)
    requires a >= -1 && b >= -1 && h == 1 + Max(a, b) && -1 <= a - b <= 1
    ensures h >= 0 && Fib(a + 3) + Fib(b + 3) >= Fib(h + 3)
  {
    FibGrows(h + 1);
    assert Fib(h + 3) == Fib(h + 2) + Fib(h + 1);
  }

  lemma ExactBalanced(t: Tree)
    requires Exact(t) && Balanced(t) && t.Node?
    ensures Exact(t.left) && Balanced(t.left) && Exact(t.right) && Balanced(t.right)
    ensures t.height == 1 + Max(Height(t.left), Height(t.right)) && -1 <= Height(t.left) - Height(t.right) <= 1
  {
  }

  /** A balanced tree of height h has at least Fib(h + 3) - 1 nodes. */
  lemma {:induction false} MinimumSize(t: Tree)
    requires Exact(t) && Balanced(t)
    ensures Height(t) >= -1 && Size(t) >= Fib(Height(t) + 3) - 1
  {
    if t.Node? {
      ExactBalanced(t);
      hide Fib, Exact, Balanced;
      MinimumSize(t.left);
      MinimumSize(t.right);
      MinimumStep(t.height, Height(t.left), Height(t.right));
    }
  }

  /** The tree that inserting the keys one after the other builds. */
  function Built(keys: seq<int>): (t: Tree)
    ensures Exact(t)
  {
    if keys == [] then Leaf else Insert(Built(keys[..|keys| - 1]), keys[|keys| - 1])
  }

  /** Every reachable tree is an AVL tree of exactly the inserted keys, and of logarithmic height. */
  lemma {:induction false} BuiltIsAvl(keys: seq<int>)
    ensures Avl(Built(keys)) && Keys(Built(keys)) == (set k | k in keys)
    ensures Height(Built(keys)) >= -1 && Size(Built(keys)) >= Fib(Height(Built(keys)) + 3) - 1
    ensures |Keys(Built(keys))| == Size(Built(keys))
  {
    if keys != [] {
      BuiltIsAvl(keys[..|keys| - 1]);
      InsertKeeps(Built(keys[..|keys| - 1]), keys[|keys| - 1]);
    }
    MinimumSize(Built(keys));
    KeysAreDistinct(Built(keys));
  }

  // ----- The nodes

  class AVLNode {
    var data: int
    var height: int
    var left: AVLNode?
    var right: AVLNode?
    ghost var repr: set<AVLNode>

    /** The links below this node form a tree. */
    ghost predicate Valid()
      reads this, repr
      decreases repr
    {
      && this in repr
      && (left != null ==> left in repr && left.repr <= repr - {this} && left.Valid())
      && (right != null ==> right in repr && right.repr <= repr - {this} && right.Valid())
      && (left != null && right != null ==> left.repr !! right.repr)
      && repr == {this} + (if left == null then {} else left.repr) + (if right == null then {} else right.repr)
    }

    ghost function Value(): Tree
      requires Valid()
      reads this, repr
      decreases repr
    {
      Node(if left == null then Leaf else left.Value(), data, height, if right == null then Leaf else right.Value())
    }

    constructor (d: int)
      ensures Valid() && Value() == Node(Leaf, d, 0, Leaf) && fresh(repr) && repr == {this}
    {
      data := d;
      height := 0;
      left := null;
      right := null;
      repr := {this};
    }
  }

  ghost predicate IsTree(n: AVLNode?)
    reads n, if n == null then {} else n.repr
  {
    n != null ==> n.Valid()
  }

  ghost function ValueOf(n: AVLNode?): Tree
    requires IsTree(n)
    reads n, if n == null then {} else n.repr
  {
    if n == null then Leaf else n.Value()
  }

  ghost function ReprOf(n: AVLNode?): set<AVLNode>
    reads n
  {
    if n == null then {} else n.repr
  }

  method StoredHeight(n: AVLNode?) returns (h: int)
    requires IsTree(n)
    ensures h == Height(ValueOf(n))
  {
    if n == null { return -1; }
    return n.height;
  }

  method BalanceFactorOf(n: AVLNode) returns (bf: int)
    requires n.Valid()
    ensures bf == BalanceFactor(n.Value())
  {
    var l := StoredHeight(n.left);
    var r := StoredHeight(n.right);
    return l - r;
  }

  /** A node whose children are disjoint trees not containing it. */
  ghost predicate Assembled(n: AVLNode)
    reads n, n.left, n.right, ReprOf(n.left), ReprOf(n.right)
  {
    && IsTree(n.left) && IsTree(n.right) && n !in ReprOf(n.left) && n !in ReprOf(n.right)
    && ReprOf(n.left) !! ReprOf(n.right)
  }

  lemma Unfold(n: AVLNode)
    requires n.Valid()
    ensures Assembled(n) && n in n.repr && n.repr == {n} + ReprOf(n.left) + ReprOf(n.right)
    ensures n.Value() == Node(ValueOf(n.left), n.data, n.height, ValueOf(n.right))
    ensures (n.left != null ==> n.left in n.left.repr) && (n.right != null ==> n.right in n.right.repr)
  {
  }

  lemma InOwnRepr(n: AVLNode?)
    requires IsTree(n)
    ensures n != null ==> n in n.repr
  {
  }

  /** Recompute the stored height of n from those of its children. */
  method UpdateHeight(n: AVLNode)
    requires Assembled(n)
    modifies n`height, n`repr
    ensures n.Valid() && n.repr == {n} + ReprOf(n.left) + ReprOf(n.right)
    ensures n.Value() == Make(old(ValueOf(n.left)), n.data, old(ValueOf(n.right)))
    ensures n.left != null ==> n.left.Valid() && n.left.repr == old(n.left.repr)
    ensures n.right != null ==> n.right.Valid() && n.right.repr == old(n.right.repr)
  {
    hide AVLNode.Valid, AVLNode.Value;
    InOwnRepr(n.left);
    InOwnRepr(n.right);
    var l := StoredHeight(n.left);
    var r := StoredHeight(n.right);
    n.height := 1 + Max(l, r);
    n.repr := {n} + ReprOf(n.left) + ReprOf(n.right);
    Fold(n);
  }

  lemma Fold(n: AVLNode)
    requires Assembled(n) && n.repr == {n} + ReprOf(n.left) + ReprOf(n.right)
    ensures n.Valid() && n.Value() == Node(ValueOf(n.left), n.data, n.height, ValueOf(n.right))
  {
  }

  lemma RotatedRight(y: Tree, key: int, c: Tree)
    requires y.Node?
    ensures Make(y, key, c).Node? && Make(y, key, c).left.Node?
    ensures RotateRight(Make(y, key, c)) == Make(y.left, y.key, Make(y.right, key, c))
  {
  }

  lemma RotatedLeft(a: Tree, key: int, y: Tree)
    requires y.Node?
    ensures Make(a, key, y).Node? && Make(a, key, y).right.Node?
    ensures RotateLeft(Make(a, key, y)) == Make(Make(a, key, y.left), y.key, y.right)
  {
  }

  /** The two link assignments of a right rotation: z takes over y's right subtree and becomes y's right child. */
  method LinkRight(z: AVLNode, y: AVLNode)
    requires Assembled(z) && Assembled(y) && z.left == y && y.repr == {y} + ReprOf(y.left) + ReprOf(y.right)
    requires y in y.repr && (z.right != null ==> z.right in z.right.repr)
    requires (y.left != null ==> y.left in y.left.repr) && (y.right != null ==> y.right in y.right.repr)
    modifies z`left, y`right
    ensures y.right == z && z.left == old(y.right) && Assembled(z)
    ensures ValueOf(z.left) == old(ValueOf(y.right)) && ReprOf(z.left) == old(ReprOf(y.right))
    ensures ValueOf(z.right) == old(ValueOf(z.right)) && ReprOf(z.right) == old(ReprOf(z.right))
    ensures IsTree(y.left) && ValueOf(y.left) == old(ValueOf(y.left)) && ReprOf(y.left) == old(ReprOf(y.left))
  {
    hide AVLNode.Valid, AVLNode.Value;
    var t3 := y.right;
    y.right := z;
    z.left := t3;
  }

  /** The two link assignments of a left rotation. */
  method LinkLeft(z: AVLNode, y: AVLNode)
    requires Assembled(z) && Assembled(y) && z.right == y && y.repr == {y} + ReprOf(y.left) + ReprOf(y.right)
    requires y in y.repr && (z.left != null ==> z.left in z.left.repr)
    requires (y.left != null ==> y.left in y.left.repr) && (y.right != null ==> y.right in y.right.repr)
    modifies z`right, y`left
    ensures y.left == z && z.right == old(y.left) && Assembled(z)
    ensures ValueOf(z.right) == old(ValueOf(y.left)) && ReprOf(z.right) == old(ReprOf(y.left))
    ensures ValueOf(z.left) == old(ValueOf(z.left)) && ReprOf(z.left) == old(ReprOf(z.left))
    ensures IsTree(y.right) && ValueOf(y.right) == old(ValueOf(y.right)) && ReprOf(y.right) == old(ReprOf(y.right))
  {
    hide AVLNode.Valid, AVLNode.Value;
    var t2 := y.left;
    y.left := z;
    z.right := t2;
  }

  method RotateRightAt(z: AVLNode) returns (y: AVLNode)
    requires Assembled(z) && z.left != null
    modifies z, z.left
    ensures y.Valid() && y.repr == {z} + old(ReprOf(z.left)) + old(ReprOf(z.right))
    ensures y.Value() == RotateRight(Make(old(ValueOf(z.left)), old(z.data), old(ValueOf(z.right))))
  {
    hide Make, RotateRight, AVLNode.Valid, AVLNode.Value;
    y := z.left;
    Unfold(y);
    if z.right != null { Unfold(z.right); }
    ghost var key, top, a, c := z.data, y.Value(), ValueOf(y.left), ValueOf(z.right);
    LinkRight(z, y);
    RaiseRight(z, y);
    RotatedRight(top, key, c);
  }

  /** Both heights after a right rotation, the lower node first. */
  method RaiseRight(z: AVLNode, y: AVLNode)
    requires Assembled(z) && y.right == z && IsTree(y.left) && y != z && y !in ReprOf(y.left)
    requires y !in ReprOf(z.left) && y !in ReprOf(z.right) && z !in ReprOf(y.left)
    requires ReprOf(y.left) !! ReprOf(z.left) && ReprOf(y.left) !! ReprOf(z.right)
    requires (y.left != null ==> y.left in y.left.repr)
    modifies z`height, z`repr, y`height, y`repr
    ensures y.Valid() && y.repr == {y, z} + old(ReprOf(y.left)) + old(ReprOf(z.left)) + old(ReprOf(z.right))
    ensures y.Value() == Make(old(ValueOf(y.left)), y.data, Make(old(ValueOf(z.left)), z.data, old(ValueOf(z.right))))
  {
    hide Make, AVLNode.Valid, AVLNode.Value;
    UpdateHeight(z);
    UpdateHeight(y);
  }

  /** Both heights after a left rotation, the lower node first. */
  method RaiseLeft(z: AVLNode, y: AVLNode)
    requires Assembled(z) && y.left == z && IsTree(y.right) && y != z && y !in ReprOf(y.right)
    requires y !in ReprOf(z.left) && y !in ReprOf(z.right) && z !in ReprOf(y.right)
    requires ReprOf(y.right) !! ReprOf(z.left) && ReprOf(y.right) !! ReprOf(z.right)
    requires (y.right != null ==> y.right in y.right.repr)
    modifies z`height, z`repr, y`height, y`repr
    ensures y.Valid() && y.repr == {y, z} + old(ReprOf(y.right)) + old(ReprOf(z.left)) + old(ReprOf(z.right))
    ensures y.Value() == Make(Make(old(ValueOf(z.left)), z.data, old(ValueOf(z.right))), y.data, old(ValueOf(y.right)))
  {
    hide Make, AVLNode.Valid, AVLNode.Value;
    UpdateHeight(z);
    UpdateHeight(y);
  }

  method RotateLeftAt(z: AVLNode) returns (y: AVLNode)
    requires Assembled(z) && z.right != null
    modifies z, z.right
    ensures y.Valid() && y.repr == {z} + old(ReprOf(z.left)) + old(ReprOf(z.right))
    ensures y.Value() == RotateLeft(Make(old(ValueOf(z.left)), old(z.data), old(ValueOf(z.right))))
  {
    hide Make, RotateLeft, AVLNode.Valid, AVLNode.Value;
    y := z.right;
    Unfold(y);
    if z.left != null { Unfold(z.left); }
    ghost var key, top, a, c := z.data, y.Value(), ValueOf(z.left), ValueOf(y.right);
    LinkLeft(z, y);
    RaiseLeft(z, y);
    RotatedLeft(a, key, top);
  }

  lemma ExactParts(t: Tree)
    requires Exact(t) && t.Node?
    ensures Height(t.left) >= -1 && Height(t.right) >= -1
    ensures t == Make(t.left, t.key, t.right)
  {
    ExactNonNegative(t.left);
    ExactNonNegative(t.right);
  }

  lemma LeftCases(left: Tree, key: int, right: Tree)
    requires Exact(left) && Exact(right) && BalanceFactor(Make(left, key, right)) > 1
    ensures left.Node? && left == Make(left.left, left.key, left.right)
    ensures BalanceFactor(left) >= 0 ==> Rebalance(left, key, right) == RotateRight(Make(left, key, right))
    ensures BalanceFactor(left) < 0 ==> left.right.Node? && RotateLeft(left).Node?
    ensures BalanceFactor(left) < 0 ==> Rebalance(left, key, right) == RotateRight(Make(RotateLeft(left), key, right))
  {
    ExactNonNegative(right);
    ExactParts(left);
  }

  lemma RightCases(left: Tree, key: int, right: Tree)
    requires Exact(left) && Exact(right) && BalanceFactor(Make(left, key, right)) < -1
    ensures right.Node? && right == Make(right.left, right.key, right.right)
    ensures BalanceFactor(right) <= 0 ==> Rebalance(left, key, right) == RotateLeft(Make(left, key, right))
    ensures BalanceFactor(right) > 0 ==> right.left.Node? && RotateRight(right).Node?
    ensures BalanceFactor(right) > 0 ==> Rebalance(left, key, right) == RotateLeft(Make(left, key, RotateRight(right)))
  {
    ExactNonNegative(left);
    ExactParts(right);
  }

  /** n's left child is replaced by its own left rotation. */
  method RotateLeftChild(n: AVLNode)
    requires Assembled(n) && n.left != null && ValueOf(n.left).right.Node?
    modifies {n} + ReprOf(n.left)
    ensures Assembled(n) && n.left != null && n.left in n.left.repr && n.data == old(n.data)
    ensures n.left.repr == old(n.left.repr) && ReprOf(n.right) == old(ReprOf(n.right))
    ensures ValueOf(n.right) == old(ValueOf(n.right))
    ensures ValueOf(n.left) == RotateLeft(Make(old(ValueOf(n.left)).left, old(ValueOf(n.left)).key, old(ValueOf(n.left)).right))
  {
    hide Make, RotateLeft, AVLNode.Valid, AVLNode.Value;
    Unfold(n.left);
    if n.right != null { Unfold(n.right); }
    var l := RotateLeftAt(n.left);
    Unfold(l);
    n.left := l;
  }

  /** n's right child is replaced by its own right rotation. */
  method RotateRightChild(n: AVLNode)
    requires Assembled(n) && n.right != null && ValueOf(n.right).left.Node?
    modifies {n} + ReprOf(n.right)
    ensures Assembled(n) && n.right != null && n.right in n.right.repr && n.data == old(n.data)
    ensures n.right.repr == old(n.right.repr) && ReprOf(n.left) == old(ReprOf(n.left))
    ensures ValueOf(n.left) == old(ValueOf(n.left))
    ensures ValueOf(n.right) == RotateRight(Make(old(ValueOf(n.right)).left, old(ValueOf(n.right)).key, old(ValueOf(n.right)).right))
  {
    hide Make, RotateRight, AVLNode.Valid, AVLNode.Value;
    Unfold(n.right);
    if n.left != null { Unfold(n.left); }
    var m := RotateRightAt(n.right);
    Unfold(m);
    n.right := m;
  }

  /** The left subtree of n is two levels too high. */
  method RepairLeft(n: AVLNode) returns (r: AVLNode)
    requires Assembled(n) && Exact(ValueOf(n.left)) && Exact(ValueOf(n.right))
    requires BalanceFactor(Make(ValueOf(n.left), n.data, ValueOf(n.right))) > 1
    modifies {n} + ReprOf(n.left)
    ensures r.Valid() && r.repr == {n} + old(ReprOf(n.left)) + old(ReprOf(n.right))
    ensures r.Value() == Rebalance(old(ValueOf(n.left)), old(n.data), old(ValueOf(n.right)))
  {
    hide Exact, Rebalance, Make, BalanceFactor, RotateLeft, RotateRight, AVLNode.Valid, AVLNode.Value;
    ghost var left, right := ValueOf(n.left), ValueOf(n.right);
    LeftCases(left, n.data, right);
    Unfold(n.left);
    var bfLeft := BalanceFactorOf(n.left);
    if bfLeft < 0 { RotateLeftChild(n); }
    r := RotateRightAt(n);
  }

  /** The right subtree of n is two levels too high. */
  method RepairRight(n: AVLNode) returns (r: AVLNode)
    requires Assembled(n) && Exact(ValueOf(n.left)) && Exact(ValueOf(n.right))
    requires BalanceFactor(Make(ValueOf(n.left), n.data, ValueOf(n.right))) < -1
    modifies {n} + ReprOf(n.right)
    ensures r.Valid() && r.repr == {n} + old(ReprOf(n.left)) + old(ReprOf(n.right))
    ensures r.Value() == Rebalance(old(ValueOf(n.left)), old(n.data), old(ValueOf(n.right)))
  {
    hide Exact, Rebalance, Make, BalanceFactor, RotateLeft, RotateRight, AVLNode.Valid, AVLNode.Value;
    ghost var left, right := ValueOf(n.left), ValueOf(n.right);
    RightCases(left, n.data, right);
    Unfold(n.right);
    var bfRight := BalanceFactorOf(n.right);
    if bfRight > 0 { RotateRightChild(n); }
    r := RotateLeftAt(n);
  }

  /** Repair n after one of its subtrees has changed. */
  method RebalanceAt(n: AVLNode) returns (r: AVLNode)
    requires Assembled(n) && Exact(ValueOf(n.left)) && Exact(ValueOf(n.right))
    modifies {n} + ReprOf(n.left) + ReprOf(n.right)
    ensures r.Valid() && r.repr == {n} + old(ReprOf(n.left)) + old(ReprOf(n.right))
    ensures r.Value() == Rebalance(old(ValueOf(n.left)), old(n.data), old(ValueOf(n.right)))
  {
    hide Exact, RotateLeft, RotateRight, AVLNode.Valid, AVLNode.Value;
    UpdateHeight(n);
    Unfold(n);
    var bf := BalanceFactorOf(n);
    if bf > 1 {
      r := RepairLeft(n);
    } else if bf < -1 {
      r := RepairRight(n);
    } else {
      r := n;
    }
  }

  lemma InsertAvl(t: Tree, k: int)
    requires Exact(t)
    ensures Avl(t) ==> Avl(Insert(t, k)) && Keys(Insert(t, k)) == Keys(t) + {k}
  {
    if Avl(t) { InsertKeeps(t, k); }
  }

  lemma AssembledIs(n: AVLNode)
    requires Assembled(n)
    ensures IsTree(n.left) && IsTree(n.right) && n !in ReprOf(n.left) && n !in ReprOf(n.right)
    ensures ReprOf(n.left) !! ReprOf(n.right)
  {
  }

  /** The changed subtree becomes the left child. */
  method HangLeft(n: AVLNode, l: AVLNode)
    requires l.Valid() && l in l.repr && IsTree(n.right) && (n.right != null ==> n.right in n.right.repr)
    requires n !in l.repr && n !in ReprOf(n.right) && l.repr !! ReprOf(n.right)
    modifies n`left
    ensures n.left == l && Assembled(n)
    ensures ValueOf(n.left) == old(l.Value()) && ReprOf(n.left) == old(l.repr)
    ensures ValueOf(n.right) == old(ValueOf(n.right)) && ReprOf(n.right) == old(ReprOf(n.right))
  {
    hide AVLNode.Valid, AVLNode.Value;
    n.left := l;
  }

  /** The changed subtree becomes the right child. */
  method HangRight(n: AVLNode, r: AVLNode)
    requires r.Valid() && r in r.repr && IsTree(n.left) && (n.left != null ==> n.left in n.left.repr)
    requires n !in r.repr && n !in ReprOf(n.left) && r.repr !! ReprOf(n.left)
    modifies n`right
    ensures n.right == r && Assembled(n)
    ensures ValueOf(n.right) == old(r.Value()) && ReprOf(n.right) == old(r.repr)
    ensures ValueOf(n.left) == old(ValueOf(n.left)) && ReprOf(n.left) == old(ReprOf(n.left))
  {
    hide AVLNode.Valid, AVLNode.Value;
    n.right := r;
  }

  lemma InsertIs(t: Tree, k: int)
    requires Exact(t)
    ensures t.Leaf? ==> Insert(t, k) == Node(Leaf, k, 0, Leaf)
    ensures t.Node? ==> Exact(t.left) && Exact(t.right) && Exact(Insert(t.left, k)) && Exact(Insert(t.right, k))
    ensures t.Node? && k < t.key ==> Insert(t, k) == Rebalance(Insert(t.left, k), t.key, t.right)
    ensures t.Node? && k > t.key ==> Insert(t, k) == Rebalance(t.left, t.key, Insert(t.right, k))
    ensures t.Node? && k == t.key ==> Insert(t, k) == t
  {
  }

  /** avl_insert: the returned root holds the old tree with the key inserted. */
  method AvlInsert(root: AVLNode?, d: int) returns (r: AVLNode)
    requires IsTree(root) && Exact(ValueOf(root))
    modifies ReprOf(root)
    ensures r.Valid() && r.Value() == Insert(old(ValueOf(root)), d)
    ensures fresh(r.repr - old(ReprOf(root)))
    ensures Avl(old(ValueOf(root))) ==>
              Avl(r.Value()) && Keys(r.Value()) == Keys(old(ValueOf(root))) + {d}
    decreases ReprOf(root)
  {
    hide Avl, Exact, Keys, AVLNode.Valid, AVLNode.Value, Rebalance, Insert, Assembled;
    ghost var t := ValueOf(root);
    InsertIs(t, d);
    InsertAvl(t, d);
    if root == null {
      r := new AVLNode(d);
      return;
    }
    Unfold(root);
    AssembledIs(root);
    if d < root.data {
      var l := AvlInsert(root.left, d);
      InOwnRepr(l);
      HangLeft(root, l);
    } else if d > root.data {
      var rr := AvlInsert(root.right, d);
      InOwnRepr(rr);
      HangRight(root, rr);
    } else {
      return root;
    }
    r := RebalanceAt(root);
  }
}
