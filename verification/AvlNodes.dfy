/** The AVL tree as the source keeps it: nodes relinked through pointers. */
module AvlNodes {
  import opened Bytes
  import opened AvlTree

  class TreeNode {
    var data: Elem
    var balance: int
    var left: TreeNode?
    var right: TreeNode?
    ghost var repr: set<TreeNode>

    constructor (data: Elem)
      ensures this.data == data && balance == 0 && left == null && right == null && repr == {this}
    {
      this.data, balance, left, right := data, 0, null, null;
      repr := {this};
    }
  }

  /** The nodes of a subtree. */
  ghost function Foot(n: TreeNode?): set<TreeNode>
    reads n
  {
    if n == null then {} else n.repr
  }

  /** A node and its two subtrees share nothing. */
  ghost predicate Apex(n: TreeNode)
    reads n, n.left, n.right
  {
    && n.repr == {n} + Foot(n.left) + Foot(n.right)
    && (n.left != null ==> n.left in n.left.repr) && (n.right != null ==> n.right in n.right.repr)
    && n !in Foot(n.left) && n !in Foot(n.right) && Foot(n.left) !! Foot(n.right)
  }

  /** The nodes under `n` form the tree `t`. */
  ghost predicate Shape(n: TreeNode?, t: Tree)
    reads n, Foot(n)
    decreases t
  {
    match t
    case Nil => n == null
    case Node(l, d, r, b) =>
      && n != null && n in n.repr
      && (n.left != null ==> n.left in n.repr) && (n.right != null ==> n.right in n.repr)
      && Apex(n)
      && n.data == d && n.balance == b && Shape(n.left, l) && Shape(n.right, r)
  }

  /** Opening a subtree, and putting one together. */
  lemma Parts(n: TreeNode?, t: Tree)
    requires Shape(n, t) && t.Node?
    ensures n != null && Apex(n) && n.data == t.data && n.balance == t.balance
    ensures Shape(n.left, t.left) && Shape(n.right, t.right)
    ensures n.left == null <==> t.left.Nil?
    ensures n.right == null <==> t.right.Nil?
    ensures n in n.repr
  {
  }

  lemma Build(n: TreeNode, t: Tree)
    requires t.Node? && Apex(n) && n.data == t.data && n.balance == t.balance
    requires Shape(n.left, t.left) && Shape(n.right, t.right)
    ensures Shape(n, t)
  {
  }

  method RotateNodeLeft(n: TreeNode, ghost t: Tree) returns (raised: TreeNode)
    requires Shape(n, t) && t.Node? && t.right.Node?
    modifies n, n.right
    ensures Shape(raised, RotateLeft(t)) && raised.repr == old(n.repr)
  {
    hide Shape;
    Parts(n, t);
    Parts(n.right, t.right);
    raised := n.right;
    n.right := raised.left;
    raised.left := n;
    n.repr := {n} + Foot(n.left) + Foot(n.right);
    raised.repr := {raised} + n.repr + Foot(raised.right);
    Build(n, t.(right := t.right.left));
    Build(raised, RotateLeft(t));
  }

  method RotateNodeRight(n: TreeNode, ghost t: Tree) returns (raised: TreeNode)
    requires Shape(n, t) && t.Node? && t.left.Node?
    modifies n, n.left
    ensures Shape(raised, RotateRight(t)) && raised.repr == old(n.repr)
  {
    hide Shape;
    Parts(n, t);
    Parts(n.left, t.left);
    raised := n.left;
    n.left := raised.right;
    raised.right := n;
    n.repr := {n} + Foot(n.left) + Foot(n.right);
    raised.repr := {raised} + n.repr + Foot(raised.left);
    Build(n, t.(left := t.left.right));
    Build(raised, RotateRight(t));
  }

  /** Two balances change: a node's and its left child's. */
  method SetBalances(n: TreeNode, b: int, c: int, ghost t: Tree)
    requires n.left != null && Shape(n, t) && t.Node?
    modifies n`balance, n.left`balance
    ensures t.left.Node? && Shape(n, t.(balance := b, left := t.left.(balance := c)))
  {
    hide Shape;
    Parts(n, t);
    Parts(n.left, t.left);
    n.balance := b;
    n.left.balance := c;
    Build(n.left, t.left.(balance := c));
    Build(n, t.(balance := b, left := t.left.(balance := c)));
  }

  method SetBalancesRight(n: TreeNode, b: int, c: int, ghost t: Tree)
    requires n.right != null && Shape(n, t) && t.Node?
    modifies n`balance, n.right`balance
    ensures t.right.Node? && Shape(n, t.(balance := b, right := t.right.(balance := c)))
  {
    hide Shape;
    Parts(n, t);
    Parts(n.right, t.right);
    n.balance := b;
    n.right.balance := c;
    Build(n.right, t.right.(balance := c));
    Build(n, t.(balance := b, right := t.right.(balance := c)));
  }

  /** The left child comes up, by a single or a double rotation. */
  method RaiseNodeLeft(n: TreeNode, ghost t: Tree) returns (raised: TreeNode)
    requires Shape(n, t) && CanRaiseLeft(t)
    modifies n.repr
    ensures Shape(raised, RaiseLeft(t)) && raised.repr == old(n.repr)
  {
    hide Shape;
    Parts(n, t);
    var c := n.left;
    Parts(c, t.left);
    if c.balance == -1 {
      SetBalances(n, 0, 0, t);
      raised := RotateNodeRight(n, t.(balance := 0, left := t.left.(balance := 0)));
    } else if c.balance == 1 {
      raised := RaiseTwiceLeft(n, t);
    } else {
      SetBalances(n, n.balance, 1, t);
      raised := RotateNodeRight(n, t.(left := t.left.(balance := 1)));
    }
  }

  method RaiseTwiceLeft(n: TreeNode, ghost t: Tree) returns (raised: TreeNode)
    requires Shape(n, t) && CanRaiseLeft(t) && t.left.balance == 1
    modifies n.repr
    ensures Shape(raised, RaiseLeft(t)) && raised.repr == old(n.repr)
  {
    hide Shape, RotateLeft, RotateRight;
    Parts(n, t);
    var c := n.left;
    Parts(c, t.left);
    Parts(c.right, t.left.right);
    var b := c.right.balance;
    n.balance := OuterBalance(b);
    SetBalancesRight(c, InnerBalance(b), 0, t.left);
    ghost var u := t.left.(balance := InnerBalance(b), right := t.left.right.(balance := 0));
    ghost var w := t.(balance := OuterBalance(b), left := RotateLeft(u));
    RotatedLeft(u);
    var top := RotateNodeLeft(c, u);
    HeadIn(top, RotateLeft(u));
    assert n != top && n !in top.repr;
    n.left := top;
    Build(n, w);
    raised := RotateNodeRight(n, w);
  }

  /** The right child comes up, by a single or a double rotation. */
  method RaiseNodeRight(n: TreeNode, ghost t: Tree) returns (raised: TreeNode)
    requires Shape(n, t) && CanRaiseRight(t)
    modifies n.repr
    ensures Shape(raised, RaiseRight(t)) && raised.repr == old(n.repr)
  {
    hide Shape;
    Parts(n, t);
    var c := n.right;
    Parts(c, t.right);
    if c.balance == 1 {
      SetBalancesRight(n, 0, 0, t);
      raised := RotateNodeLeft(n, t.(balance := 0, right := t.right.(balance := 0)));
    } else if c.balance == -1 {
      raised := RaiseTwiceRight(n, t);
    } else {
      SetBalancesRight(n, n.balance, -1, t);
      raised := RotateNodeLeft(n, t.(right := t.right.(balance := -1)));
    }
  }

  method RaiseTwiceRight(n: TreeNode, ghost t: Tree) returns (raised: TreeNode)
    requires Shape(n, t) && CanRaiseRight(t) && t.right.balance == -1
    modifies n.repr
    ensures Shape(raised, RaiseRight(t)) && raised.repr == old(n.repr)
  {
    hide Shape, RotateRight, RotateLeft;
    Parts(n, t);
    var c := n.right;
    Parts(c, t.right);
    Parts(c.left, t.right.left);
    var b := c.left.balance;
    n.balance := -OuterBalance(-b);
    SetBalances(c, -InnerBalance(-b), 0, t.right);
    ghost var u := t.right.(balance := -InnerBalance(-b), left := t.right.left.(balance := 0));
    ghost var w := t.(balance := -OuterBalance(-b), right := RotateRight(u));
    RotatedRight(u);
    var top := RotateNodeRight(c, u);
    HeadIn(top, RotateRight(u));
    assert n != top && n !in top.repr;
    n.right := top;
    Build(n, w);
    raised := RotateNodeLeft(n, w);
  }

  lemma HeadIn(n: TreeNode?, t: Tree)
    requires Shape(n, t) && t.Node?
    ensures n != null && n in n.repr
  {
  }

  lemma RotatedLeft(t: Tree)
    requires t.Node? && t.right.Node?
    ensures RotateLeft(t).Node?
  {
  }

  lemma RotatedRight(t: Tree)
    requires t.Node? && t.left.Node?
    ensures RotateRight(t).Node?
  {
  }

  /** Hangs a changed subtree under its parent again. */
  method HangLeft(n: TreeNode, child: TreeNode?, ghost t: Tree, ghost c: Tree)
    requires t.Node? && n.data == t.data && n.balance == t.balance && Shape(child, c) && Shape(n.right, t.right)
    requires n.right != null ==> n.right in n.right.repr
    requires n !in Foot(child) && n !in Foot(n.right) && Foot(child) !! Foot(n.right)
    modifies n
    ensures Shape(n, t.(left := c)) && n.repr == {n} + Foot(child) + old(Foot(n.right))
  {
    hide Shape;
    NotThere(child, c);
    n.left := child;
    n.repr := {n} + Foot(n.left) + Foot(n.right);
    Build(n, t.(left := c));
  }

  /** The end of an insertion under the left child: new balance, or rotations. */
  method AdjustLeftInsert(n: TreeNode, grown: bool, ghost t: Tree, ghost s: Inserted) returns (m: TreeNode, taller: bool)
    requires t.Node? && Shape(n, t.(left := s.tree)) && grown == s.taller
    requires s.taller && t.balance == -1 ==> CanRaiseLeft(t.(left := s.tree))
    modifies n.repr
    ensures Shape(m, AfterLeftInsert(t, s).tree) && taller == AfterLeftInsert(t, s).taller && m.repr == old(n.repr)
  {
    hide Shape, RaiseLeft;
    ghost var u := t.(left := s.tree);
    Parts(n, u);
    m, taller := n, grown;
    if grown {
      if n.balance == -1 {
        Parts(n.left, u.left);
        if n.left.balance != 0 {
          m := RaiseNodeLeft(n, u);
          taller := false;
        }
      } else if n.balance == 0 {
        n.balance := -1;
        Build(n, u.(balance := -1));
      } else {
        n.balance := 0;
        taller := false;
        Build(n, u.(balance := 0));
      }
    }
  }

  /** Hangs a changed subtree under its parent again. */
  method HangRight(n: TreeNode, child: TreeNode?, ghost t: Tree, ghost c: Tree)
    requires t.Node? && n.data == t.data && n.balance == t.balance && Shape(child, c) && Shape(n.left, t.left)
    requires n.left != null ==> n.left in n.left.repr
    requires n !in Foot(child) && n !in Foot(n.left) && Foot(child) !! Foot(n.left)
    modifies n
    ensures Shape(n, t.(right := c)) && n.repr == {n} + Foot(child) + old(Foot(n.left))
  {
    hide Shape;
    NotThere(child, c);
    n.right := child;
    n.repr := {n} + Foot(n.left) + Foot(n.right);
    Build(n, t.(right := c));
  }

  /** The end of an insertion under the right child: new balance, or rotations. */
  method AdjustRightInsert(n: TreeNode, grown: bool, ghost t: Tree, ghost s: Inserted) returns (m: TreeNode, taller: bool)
    requires t.Node? && Shape(n, t.(right := s.tree)) && grown == s.taller
    requires s.taller && t.balance == 1 ==> CanRaiseRight(t.(right := s.tree))
    modifies n.repr
    ensures Shape(m, AfterRightInsert(t, s).tree) && taller == AfterRightInsert(t, s).taller && m.repr == old(n.repr)
  {
    hide Shape, RaiseRight;
    ghost var u := t.(right := s.tree);
    Parts(n, u);
    m, taller := n, grown;
    if grown {
      if n.balance == 1 {
        Parts(n.right, u.right);
        if n.right.balance != 0 {
          m := RaiseNodeRight(n, u);
          taller := false;
        }
      } else if n.balance == 0 {
        n.balance := 1;
        Build(n, u.(balance := 1));
      } else {
        n.balance := 0;
        taller := false;
        Build(n, u.(balance := 0));
      }
    }
  }

  lemma NotThere(n: TreeNode?, t: Tree)
    requires Shape(n, t)
    ensures n != null ==> n in n.repr
  {
  }

  /** `avl_tree_insert_loop` and `avl_tree_replace_loop`, which differ only on a key already there. */
  method PutNode(n: TreeNode?, e: Elem, replace: bool, memory: bool, ghost t: Tree)
    returns (m: TreeNode?, taller: bool, result: int)
    requires Shape(n, t) && Balanced(t)
    modifies Foot(n)
    ensures var r := Put(t, e, replace, memory);
            Shape(m, r.tree) && taller == r.taller && result == r.result
    ensures fresh(Foot(m) - old(Foot(n)))
    decreases t
  {
    hide Shape, Balanced, AfterLeftInsert, AfterRightInsert, Grown;
    if n == null {
      Empty(n, t);
      if !memory {
        return null, false, -ENOMEM;
      }
      m := new TreeNode(e);
      Single(m, e);
      return m, true, 1;
    }
    Occupied(n, t);
    Parts(n, t);
    Balances(t);
    m := n;
    if n.data.key > e.key {
      ghost var s := Put(t.left, e, replace, memory);
      AfterLeftInsertOk(t, s);
      var child;
      child, taller, result := PutNode(n.left, e, replace, memory, t.left);
      HangLeft(n, child, t, s.tree);
      m, taller := AdjustLeftInsert(n, taller, t, s);
      SameResult(t, s);
    } else if n.data.key < e.key {
      ghost var s := Put(t.right, e, replace, memory);
      AfterRightInsertOk(t, s);
      var child;
      child, taller, result := PutNode(n.right, e, replace, memory, t.right);
      HangRight(n, child, t, s.tree);
      m, taller := AdjustRightInsert(n, taller, t, s);
      SameResult(t, s);
    } else {
      taller, result := false, 0;
      if replace {
        n.data := e;
        Build(n, t.(data := e));
      }
    }
  }

  lemma Empty(n: TreeNode?, t: Tree)
    requires Shape(n, t) && n == null
    ensures t.Nil? && forall e, replace, memory ::
      Put(t, e, replace, memory) == if memory then Inserted(Node(Nil, e, Nil, 0), true, 1) else Inserted(Nil, false, -ENOMEM)
  {
  }

  lemma Occupied(n: TreeNode?, t: Tree)
    requires Shape(n, t) && n != null
    ensures t.Node?
  {
  }

  lemma Single(n: TreeNode, e: Elem)
    requires n.data == e && n.balance == 0 && n.left == null && n.right == null && n.repr == {n}
    ensures Shape(n, Node(Nil, e, Nil, 0)) && Shape(null, Nil)
  {
  }

  lemma Balances(t: Tree)
    requires t.Node? && Balanced(t)
    ensures Balanced(t.left) && Balanced(t.right) && -1 <= t.balance <= 1
  {
  }

  lemma SameResult(t: Tree, s: Inserted)
    requires t.Node?
    ensures (s.taller && t.balance == -1 ==> CanRaiseLeft(t.(left := s.tree))) ==> AfterLeftInsert(t, s).result == s.result
    ensures (s.taller && t.balance == 1 ==> CanRaiseRight(t.(right := s.tree))) ==> AfterRightInsert(t, s).result == s.result
  {
  }

  /** The end of a deletion under the left child. */
  method AdjustLeftDelete(n: TreeNode, shrunk: bool, ghost t: Tree, ghost s: Removed) returns (m: TreeNode, shorter: bool)
    requires t.Node? && -1 <= t.balance <= 1 && Shape(n, t.(left := s.tree)) && shrunk == s.shorter
    requires s.shorter && t.balance == 1 ==> CanRaiseRight(t.(left := s.tree))
    modifies n.repr
    ensures Shape(m, AfterLeftDelete(t, s).tree) && shorter == AfterLeftDelete(t, s).shorter && m.repr == old(n.repr)
  {
    hide Shape, RaiseRight;
    ghost var u := t.(left := s.tree);
    Parts(n, u);
    m, shorter := n, shrunk;
    if shrunk {
      if n.balance == -1 {
        n.balance := 0;
        Build(n, u.(balance := 0));
      } else if n.balance == 0 {
        n.balance := 1;
        shorter := false;
        Build(n, u.(balance := 1));
      } else {
        Parts(n.right, u.right);
        shorter := n.right.balance != 0;
        m := RaiseNodeRight(n, u);
      }
    }
  }

  /** The end of a deletion under the right child. */
  method AdjustRightDelete(n: TreeNode, shrunk: bool, ghost t: Tree, ghost s: Removed) returns (m: TreeNode, shorter: bool)
    requires t.Node? && -1 <= t.balance <= 1 && Shape(n, t.(right := s.tree)) && shrunk == s.shorter
    requires s.shorter && t.balance == -1 ==> CanRaiseLeft(t.(right := s.tree))
    modifies n.repr
    ensures Shape(m, AfterRightDelete(t, s).tree) && shorter == AfterRightDelete(t, s).shorter && m.repr == old(n.repr)
  {
    hide Shape, RaiseLeft;
    ghost var u := t.(right := s.tree);
    Parts(n, u);
    m, shorter := n, shrunk;
    if shrunk {
      if n.balance == 1 {
        n.balance := 0;
        Build(n, u.(balance := 0));
      } else if n.balance == 0 {
        n.balance := -1;
        shorter := false;
        Build(n, u.(balance := -1));
      } else {
        Parts(n.left, u.left);
        shorter := n.left.balance != 0;
        m := RaiseNodeLeft(n, u);
      }
    }
  }

  /** Unlinks the greatest node of a subtree and moves its data into `target`. */
  method CutMaxNode(n: TreeNode, target: TreeNode, ghost t: Tree) returns (m: TreeNode?, shorter: bool)
    requires t.Node? && Shape(n, t) && Balanced(t) && target !in n.repr && target != n
    modifies n.repr, target`data
    ensures var (r, d) := CutMax(t);
            Shape(m, r.tree) && shorter == r.shorter && target.data == d
    ensures Foot(m) <= old(n.repr)
    decreases t
  {
    hide Shape, Balanced, AfterRightDelete, Shrunk;
    Parts(n, t);
    Balances(t);
    if n.right == null {
      target.data := n.data;
      return n.left, true;
    }
    Parts(n.right, t.right);
    ghost var (s, d) := CutMax(t.right);
    AfterRightDeleteOk(t, s);
    var child;
    child, shorter := CutMaxNode(n.right, target, t.right);
    HangRight(n, child, t, s.tree);
    m, shorter := AdjustRightDelete(n, shorter, t, s);
  }

  /** `avl_tree_delete_loop` */
  method DeleteNode(n: TreeNode?, k: int, ghost t: Tree) returns (m: TreeNode?, shorter: bool, found: bool)
    requires Shape(n, t) && Balanced(t)
    modifies Foot(n)
    ensures var r := Delete(t, k);
            Shape(m, r.tree) && shorter == r.shorter && found == r.found
    ensures Foot(m) <= old(Foot(n))
    decreases t
  {
    hide Shape, Balanced, AfterLeftDelete, AfterRightDelete, Shrunk, CutMax;
    m, shorter, found := n, false, false;
    if n == null {
      Nothing(n, t);
      return;
    }
    Occupied(n, t);
    Parts(n, t);
    Balances(t);
    if n.data.key > k {
      ghost var s := Delete(t.left, k);
      AfterLeftDeleteOk(t, s);
      var child;
      child, shorter, found := DeleteNode(n.left, k, t.left);
      HangLeft(n, child, t, s.tree);
      m, shorter := AdjustLeftDelete(n, shorter, t, s);
      SameFound(t, s);
    } else if n.data.key < k {
      ghost var s := Delete(t.right, k);
      AfterRightDeleteOk(t, s);
      var child;
      child, shorter, found := DeleteNode(n.right, k, t.right);
      HangRight(n, child, t, s.tree);
      m, shorter := AdjustRightDelete(n, shorter, t, s);
      SameFound(t, s);
    } else {
      found := true;
      if n.left == null {
        m, shorter := n.right, true;
      } else if n.right == null {
        m, shorter := n.left, true;
      } else {
        m, shorter := Promoted(n, t);
      }
    }
  }

  /** A node with two children takes over the data of its predecessor, which goes. */
  method Promoted(n: TreeNode, ghost t: Tree) returns (m: TreeNode, shorter: bool)
    requires Shape(n, t) && Balanced(t) && t.Node? && t.left.Node? && t.right.Node?
    modifies n.repr
    ensures var r := Delete(t, t.data.key);
            Shape(m, r.tree) && shorter == r.shorter && r.found
    ensures m.repr <= old(n.repr)
  {
    hide Shape, Balanced, AfterLeftDelete, AfterRightDelete, Shrunk, CutMax;
    Parts(n, t);
    Balances(t);
    Parts(n.left, t.left);
    ghost var (s, d) := CutMax(t.left);
    CutFound(t.left);
    ghost var u := t.(data := d);
    OpenNode(t);
    MakeNode(t.left, d, t.right, t.balance);
    AfterLeftDeleteOk(u, s);
    var child;
    child, shorter := CutMaxNode(n.left, n, t.left);
    HangLeft(n, child, u, s.tree);
    m, shorter := AdjustLeftDelete(n, shorter, u, s);
    SameFound(u, s);
  }

  lemma Nothing(n: TreeNode?, t: Tree)
    requires Shape(n, t) && n == null
    ensures t.Nil?
  {
  }

  lemma {:induction false} CutFound(t: Tree)
    requires t.Node? && Balanced(t)
    ensures CutMax(t).0.found
    decreases t
  {
    if t.right.Node? {
      CutFound(t.right);
      AfterRightDeleteOk(t, CutMax(t.right).0);
    }
  }

  lemma SameFound(t: Tree, s: Removed)
    requires t.Node?
    ensures (s.shorter && t.balance == 1 ==> CanRaiseRight(t.(left := s.tree))) ==> AfterLeftDelete(t, s).found == s.found
    ensures (s.shorter && t.balance == -1 ==> CanRaiseLeft(t.(right := s.tree))) ==> AfterRightDelete(t, s).found == s.found
  {
  }

  /** `avl_tree_find_loop` */
  method FindNode(n: TreeNode?, k: int, ghost t: Tree) returns (r: Option<Elem>)
    requires Shape(n, t)
    ensures r == AvlTree.Find(t, k)
    decreases t
  {
    if n == null {
      return None;
    }
    if n.data.key > k {
      r := FindNode(n.left, k, t.left);
    } else if n.data.key < k {
      r := FindNode(n.right, k, t.right);
    } else {
      r := Some(n.data);
    }
  }

  /** `avl_tree_find_ge_loop` */
  method FindGeNode(n: TreeNode?, k: int, ghost t: Tree) returns (r: Option<Elem>)
    requires Shape(n, t)
    ensures r == AvlTree.FindGe(t, k)
    decreases t
  {
    if n == null {
      return None;
    }
    if n.data.key > k {
      if n.left == null {
        return Some(n.data);
      }
      r := FindGeNode(n.left, k, t.left);
      if r.None? {
        r := Some(n.data);
      }
    } else if n.data.key < k {
      r := FindGeNode(n.right, k, t.right);
    } else {
      r := Some(n.data);
    }
  }

  /** The tree with its root. Every method keeps it an AVL tree holding a map's entries. */
  class TreeInfo {
    var root: TreeNode?
    ghost var tree: Tree
    ghost var contents: map<int, int>

    ghost predicate Valid()
      reads this, root, Foot(root)
    {
      Shape(root, tree) && Avl(tree) && Represents(tree, contents)
    }

    constructor ()
      ensures Valid() && contents == map[]
    {
      root, tree, contents := null, Nil, map[];
      new;
      EmptyRepresents();
    }

    method Put(e: Elem, replace: bool, memory: bool) returns (result: int)
      requires Valid()
      modifies this, Foot(root)
      ensures Valid() && fresh(Foot(root) - old(Foot(root)))
      ensures contents == PutMap(old(contents), e, replace, memory)
      ensures result == if e.key in old(contents) then 0 else if memory then 1 else -ENOMEM
    {
      hide Shape, Balanced, Search, Represents, AvlTree.Put, PutMap;
      PutRefines(tree, contents, e, replace, memory);
      ghost var r := AvlTree.Put(tree, e, replace, memory);
      var node, taller;
      node, taller, result := PutNode(root, e, replace, memory, tree);
      root, tree, contents := node, r.tree, PutMap(contents, e, replace, memory);
    }

    /** `avl_tree_insert` */
    method Insert(e: Elem, memory: bool) returns (result: int)
      requires Valid()
      modifies this, Foot(root)
      ensures Valid() && fresh(Foot(root) - old(Foot(root)))
      ensures result == if e.key in old(contents) then 0 else if memory then 1 else -ENOMEM
      ensures contents == if result == 1 then old(contents)[e.key := e.payload] else old(contents)
    {
      result := Put(e, false, memory);
    }

    /** `avl_tree_replace` */
    method Replace(e: Elem, memory: bool) returns (result: int)
      requires Valid()
      modifies this, Foot(root)
      ensures Valid() && fresh(Foot(root) - old(Foot(root)))
      ensures result == if e.key in old(contents) then 0 else if memory then 1 else -ENOMEM
      ensures contents == if result >= 0 then old(contents)[e.key := e.payload] else old(contents)
    {
      result := Put(e, true, memory);
    }

    /** `avl_tree_delete` */
    method Delete(k: int) returns (found: bool)
      requires Valid()
      modifies this, Foot(root)
      ensures Valid() && Foot(root) <= old(Foot(root))
      ensures contents == old(contents) - {k} && (found <==> k in old(contents))
    {
      hide Shape, Balanced, Search, Represents, AvlTree.Delete;
      DeleteRefines(tree, contents, k);
      ghost var r := AvlTree.Delete(tree, k);
      var node, shorter;
      node, shorter, found := DeleteNode(root, k, tree);
      root, tree, contents := node, r.tree, contents - {k};
    }

    /** `avl_tree_find` */
    method Find(k: int) returns (r: Option<Elem>)
      requires Valid()
      ensures r == if k in contents then Some(Elem(k, contents[k])) else None
    {
      r := FindNode(root, k, tree);
      FindCorrect(tree, k);
      KeysOf(tree, contents, k);
    }

    /** `avl_tree_find_ge` */
    method FindGe(k: int) returns (r: Option<Elem>)
      requires Valid()
      ensures r.None? <==> forall x | x in contents :: x < k
      ensures r.Some? ==>
        && r.value.key in contents && contents[r.value.key] == r.value.payload && r.value.key >= k
        && forall x | x in contents && x >= k :: r.value.key <= x
    {
      r := FindGeNode(root, k, tree);
      FindGeCorrect(tree, k);
      forall x | x in contents ensures Elem(x, contents[x]) in Elems(tree) {
      }
    }

    /** `avl_tree_depth` follows the stored balances down a single path and finds the true height. */
    method Depth() returns (depth: nat)
      requires Valid()
      ensures depth == Height(tree)
      ensures Fib(depth + 2) <= |contents| + 1
    {
      hide Search, Represents;
      HeightBound(tree);
      depth := 0;
      var node := root;
      ghost var t := tree;
      while node != null
        invariant Shape(node, t) && Balanced(t) && depth + Height(t) == Height(tree)
        decreases t
      {
        if node.balance == -1 {
          node, t := node.left, t.left;
        } else {
          node, t := node.right, t.right;
        }
        depth := depth + 1;
      }
      Counted(tree, contents);
    }
  }

  lemma {:induction false} Counted(t: Tree, m: map<int, int>)
    requires Represents(t, m)
    ensures |Elems(t)| == |m|
    decreases |m|
  {
    assert m.Keys == set e | e in Elems(t) :: e.key by {
      forall k | k in m ensures k in set e | e in Elems(t) :: e.key {
        assert Elem(k, m[k]) in Elems(t);
      }
    }
    SameSize(Elems(t), m.Keys);
  }

  /** Elements with distinct keys are as many as their keys. */
  lemma {:induction false} SameSize(s: set<Elem>, ks: set<int>)
    requires ks == set e | e in s :: e.key
    requires forall a, b | a in s && b in s && a.key == b.key :: a == b
    ensures |s| == |ks|
    decreases |s|
  {
    if s != {} {
      var e :| e in s;
      var rest, others := s - {e}, ks - {e.key};
      assert others == set x | x in rest :: x.key;
      SameSize(rest, others);
    }
  }
}
