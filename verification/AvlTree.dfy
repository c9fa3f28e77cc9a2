/**
  The AVL tree. Rotations look only at the stored balance of a node, never at heights; that these
  balances are true heights differences is what the invariant says.
 */
module AvlTree {
  import opened Bytes

  /** Elements are compared by key; `payload` is what else they carry. */
  datatype Elem = Elem(key: int, payload: int)

  datatype Tree = Nil | Node(left: Tree, data: Elem, right: Tree, balance: int)

  // ---------- the invariant ----------

  ghost function Height(t: Tree): nat {
    match t
    case Nil => 0
    case Node(l, _, r, _) => 1 + if Height(l) > Height(r) then Height(l) else Height(r)
  }

  ghost function Elems(t: Tree): set<Elem> {
    match t
    case Nil => {}
    case Node(l, d, r, _) => Elems(l) + {d} + Elems(r)
  }

  ghost predicate Below(t: Tree, k: int) { forall e :: e in Elems(t) ==> e.key < k }

  ghost predicate Above(t: Tree, k: int) { forall e :: e in Elems(t) ==> k < e.key }

  ghost predicate Ordered(l: Tree, d: Elem, r: Tree) { Below(l, d.key) && Above(r, d.key) }

  /** Search order. */
  ghost predicate Search(t: Tree) {
    t.Node? ==> Search(t.left) && Search(t.right) && Ordered(t.left, t.data, t.right)
  }

  /** Every stored balance is right height minus left height, and within -1..1. */
  ghost predicate Balanced(t: Tree) {
    t.Node? ==>
      && Balanced(t.left) && Balanced(t.right)
      && t.balance == Height(t.right) - Height(t.left) && -1 <= t.balance <= 1
  }

  ghost predicate Avl(t: Tree) { Search(t) && Balanced(t) }

  // ---------- rotations and rebalancing ----------

  function RotateLeft(t: Tree): Tree
    requires t.Node? && t.right.Node?
  {
    t.right.(left := t.(right := t.right.left))
  }

  function RotateRight(t: Tree): Tree
    requires t.Node? && t.left.Node?
  {
    t.left.(right := t.(left := t.left.right))
  }

  /** Balances of a double rotation, by the balance of the node that comes up. */
  function OuterBalance(b: int): int { if b == -1 then 1 else 0 }

  function InnerBalance(b: int): int { if b == 1 then -1 else 0 }

  /** Left child too high: single or double rotation to the right. */
  function RaiseLeft(t: Tree): Tree
    requires t.Node? && t.left.Node? && (t.left.balance == 1 ==> t.left.right.Node?)
  {
    var l := t.left;
    if l.balance == -1 then RotateRight(t.(balance := 0, left := l.(balance := 0)))
    else if l.balance == 1 then
      var m := l.right;
      var left := RotateLeft(l.(balance := InnerBalance(m.balance), right := m.(balance := 0)));
      RotateRight(t.(balance := OuterBalance(m.balance), left := left))
    else RotateRight(t.(left := l.(balance := 1)))
  }

  function RaiseRight(t: Tree): Tree
    requires t.Node? && t.right.Node? && (t.right.balance == -1 ==> t.right.left.Node?)
  {
    var r := t.right;
    if r.balance == 1 then RotateLeft(t.(balance := 0, right := r.(balance := 0)))
    else if r.balance == -1 then
      var m := r.left;
      var right := RotateRight(r.(balance := -InnerBalance(-m.balance), left := m.(balance := 0)));
      RotateLeft(t.(balance := -OuterBalance(-m.balance), right := right))
    else RotateLeft(t.(right := r.(balance := -1)))
  }

  lemma RotateRightSearch(t: Tree)
    requires t.Node? && t.left.Node?
    ensures Search(RotateRight(t)) <==> Search(t)
    ensures Elems(RotateRight(t)) == Elems(t)
  {
  }

  lemma RotateLeftSearch(t: Tree)
    requires t.Node? && t.right.Node?
    ensures Search(RotateLeft(t)) <==> Search(t)
    ensures Elems(RotateLeft(t)) == Elems(t)
  {
  }

  /** Stored balances play no part in search order. */
  lemma SetBalance(t: Tree, b: int)
    requires t.Node?
    ensures Search(t.(balance := b)) <==> Search(t)
    ensures Elems(t.(balance := b)) == Elems(t)
  {
  }

  /** Nor do other changes of a subtree that keep its elements and order. */
  lemma Congruent(t: Tree, u: Tree)
    requires t.Node? && u.Node? && t.data == u.data
    requires Elems(t.left) == Elems(u.left) && Elems(t.right) == Elems(u.right)
    requires (Search(t.left) <==> Search(u.left)) && (Search(t.right) <==> Search(u.right))
    ensures Search(t) <==> Search(u)
    ensures Elems(t) == Elems(u)
  {
  }

  ghost predicate CanRaiseLeft(t: Tree) {
    t.Node? && t.left.Node? && (t.left.balance == 1 ==> t.left.right.Node?)
  }

  ghost predicate CanRaiseRight(t: Tree) {
    t.Node? && t.right.Node? && (t.right.balance == -1 ==> t.right.left.Node?)
  }

  lemma RaiseLeftSearch(t: Tree)
    requires CanRaiseLeft(t)
    ensures Search(RaiseLeft(t)) <==> Search(t)
    ensures Elems(RaiseLeft(t)) == Elems(t)
  {
    hide Search, Elems;
    var l := t.left;
    if l.balance == 1 {
      var m := l.right;
      var l1 := l.(balance := InnerBalance(m.balance), right := m.(balance := 0));
      SetBalance(m, 0);
      Congruent(l, l1);
      RotateLeftSearch(l1);
      var t1 := t.(balance := OuterBalance(m.balance), left := RotateLeft(l1));
      Congruent(t, t1);
      RotateRightSearch(t1);
    } else {
      var b := if l.balance == -1 then 0 else 1;
      var t1 := t.(balance := if l.balance == -1 then 0 else t.balance, left := l.(balance := b));
      SetBalance(l, b);
      Congruent(t, t1);
      RotateRightSearch(t1);
    }
  }

  lemma RaiseRightSearch(t: Tree)
    requires CanRaiseRight(t)
    ensures Search(RaiseRight(t)) <==> Search(t)
    ensures Elems(RaiseRight(t)) == Elems(t)
  {
    hide Search, Elems;
    var r := t.right;
    if r.balance == -1 {
      var m := r.left;
      var r1 := r.(balance := -InnerBalance(-m.balance), left := m.(balance := 0));
      SetBalance(m, 0);
      Congruent(r, r1);
      RotateRightSearch(r1);
      var t1 := t.(balance := -OuterBalance(-m.balance), right := RotateRight(r1));
      Congruent(t, t1);
      RotateLeftSearch(t1);
    } else {
      var b := if r.balance == 1 then 0 else -1;
      var t1 := t.(balance := if r.balance == 1 then 0 else t.balance, right := r.(balance := b));
      SetBalance(r, b);
      Congruent(t, t1);
      RotateLeftSearch(t1);
    }
  }

  /** A node whose left subtree has become two higher, its own balance not yet adjusted. */
  ghost predicate LeftHeavy(t: Tree) {
    t.Node? && Balanced(t.left) && Balanced(t.right) && Height(t.left) == Height(t.right) + 2 && t.balance == -1
  }

  ghost predicate RightHeavy(t: Tree) {
    t.Node? && Balanced(t.left) && Balanced(t.right) && Height(t.right) == Height(t.left) + 2 && t.balance == 1
  }

  ghost function Max(a: nat, b: nat): nat { if a > b then a else b }

  lemma MakeNode(l: Tree, d: Elem, r: Tree, b: int)
    requires Balanced(l) && Balanced(r) && b == Height(r) - Height(l) && -1 <= b <= 1
    ensures Balanced(Node(l, d, r, b)) && Height(Node(l, d, r, b)) == 1 + Max(Height(l), Height(r))
  {
  }

  lemma OpenNode(t: Tree)
    ensures t.Nil? ==> Height(t) == 0
    ensures t.Node? ==> Height(t) == 1 + Max(Height(t.left), Height(t.right))
    ensures t.Node? && Balanced(t) ==>
      && Balanced(t.left) && Balanced(t.right)
      && t.balance == Height(t.right) - Height(t.left) && -1 <= t.balance <= 1
  {
  }

  /** The new balances are the true ones; the tree gets lower unless the child was level. */
  lemma RaiseLeftBalanced(t: Tree)
    requires LeftHeavy(t)
    ensures CanRaiseLeft(t) && Balanced(RaiseLeft(t))
    ensures Height(RaiseLeft(t)) == Height(t) - if t.left.balance == 0 then 0 else 1
  {
    hide Balanced, Height;
    var l := t.left;
    OpenNode(t);
    OpenNode(l);
    if l.balance == 1 {
      var m := l.right;
      OpenNode(m);
      MakeNode(l.left, l.data, m.left, InnerBalance(m.balance));
      MakeNode(m.right, t.data, t.right, OuterBalance(m.balance));
      MakeNode(Node(l.left, l.data, m.left, InnerBalance(m.balance)), m.data,
               Node(m.right, t.data, t.right, OuterBalance(m.balance)), 0);
    } else {
      var n := if l.balance == -1 then 0 else -1;
      MakeNode(l.right, t.data, t.right, n);
      MakeNode(l.left, l.data, Node(l.right, t.data, t.right, n), l.balance + 1);
    }
  }

  lemma RaiseRightBalanced(t: Tree)
    requires RightHeavy(t)
    ensures CanRaiseRight(t) && Balanced(RaiseRight(t))
    ensures Height(RaiseRight(t)) == Height(t) - if t.right.balance == 0 then 0 else 1
  {
    hide Balanced, Height;
    var r := t.right;
    OpenNode(t);
    OpenNode(r);
    if r.balance == -1 {
      var m := r.left;
      OpenNode(m);
      var x := Node(t.left, t.data, m.left, -OuterBalance(-m.balance));
      var y := Node(m.right, r.data, r.right, -InnerBalance(-m.balance));
      MakeNode(t.left, t.data, m.left, x.balance);
      MakeNode(m.right, r.data, r.right, y.balance);
      MakeNode(x, m.data, y, 0);
      assert RaiseRight(t) == Node(x, m.data, y, 0);
    } else {
      var n := if r.balance == 1 then 0 else 1;
      MakeNode(t.left, t.data, r.left, n);
      MakeNode(Node(t.left, t.data, r.left, n), r.data, r.right, r.balance - 1);
    }
  }

  // ---------- insert and replace ----------

  /** New tree, whether it is taller, and the return code: 1 new element, 0 key present, negative errno. */
  datatype Inserted = Inserted(tree: Tree, taller: bool, result: int)

  /** The insert rebalancer does nothing when the child's balance is 0. */
  function RaiseLeftOnInsert(t: Tree, result: int): (r: Inserted)
    requires CanRaiseLeft(t)
  {
    if t.left.balance == 0 then Inserted(t, true, result) else Inserted(RaiseLeft(t), false, result)
  }

  function RaiseRightOnInsert(t: Tree, result: int): (r: Inserted)
    requires CanRaiseRight(t)
  {
    if t.right.balance == 0 then Inserted(t, true, result) else Inserted(RaiseRight(t), false, result)
  }

  /** The left subtree has been replaced by `s`; adjust the node. */
  function AfterLeftInsert(t: Tree, s: Inserted): (r: Inserted)
    requires t.Node? && (s.taller && t.balance == -1 ==> CanRaiseLeft(t.(left := s.tree)))
  {
    var u := t.(left := s.tree);
    if !s.taller then Inserted(u, false, s.result)
    else if t.balance == -1 then RaiseLeftOnInsert(u, s.result)
    else if t.balance == 0 then Inserted(u.(balance := -1), true, s.result)
    else Inserted(u.(balance := 0), false, s.result)
  }

  function AfterRightInsert(t: Tree, s: Inserted): (r: Inserted)
    requires t.Node? && (s.taller && t.balance == 1 ==> CanRaiseRight(t.(right := s.tree)))
  {
    var u := t.(right := s.tree);
    if !s.taller then Inserted(u, false, s.result)
    else if t.balance == 1 then RaiseRightOnInsert(u, s.result)
    else if t.balance == 0 then Inserted(u.(balance := 1), true, s.result)
    else Inserted(u.(balance := 0), false, s.result)
  }

  /** A subtree after an insertion: balanced, taller exactly if it says so, and then not level. */
  ghost predicate Grown(t: Tree, r: Inserted) {
    && Balanced(r.tree)
    && Height(r.tree) == Height(t) + (if r.taller then 1 else 0)
    && (r.taller ==> r.tree.Node? && (t.Node? ==> r.tree.balance != 0))
  }

  lemma AfterLeftInsertOk(t: Tree, s: Inserted)
    requires t.Node? && Balanced(t) && Grown(t.left, s)
    ensures s.taller && t.balance == -1 ==>
      LeftHeavy(t.(left := s.tree)) && CanRaiseLeft(t.(left := s.tree)) && s.tree.balance != 0
    ensures Grown(t, AfterLeftInsert(t, s))
  {
    hide Balanced, Height, RaiseLeft;
    OpenNode(t);
    OpenNode(t.left);
    var u := t.(left := s.tree);
    OpenNode(u);
    if s.taller && t.balance == -1 {
      RaiseLeftBalanced(u);
      OpenNode(RaiseLeft(u));
    } else {
      var b := if !s.taller then t.balance else t.balance - 1;
      MakeNode(u.left, u.data, u.right, b);
    }
  }

  lemma AfterRightInsertOk(t: Tree, s: Inserted)
    requires t.Node? && Balanced(t) && Grown(t.right, s)
    ensures s.taller && t.balance == 1 ==>
      RightHeavy(t.(right := s.tree)) && CanRaiseRight(t.(right := s.tree)) && s.tree.balance != 0
    ensures Grown(t, AfterRightInsert(t, s))
  {
    hide Balanced, Height, RaiseRight;
    OpenNode(t);
    OpenNode(t.right);
    var u := t.(right := s.tree);
    OpenNode(u);
    if s.taller && t.balance == 1 {
      RaiseRightBalanced(u);
      OpenNode(RaiseRight(u));
    } else {
      var b := if !s.taller then t.balance else t.balance + 1;
      MakeNode(u.left, u.data, u.right, b);
    }
  }

  /**
    `avl_tree_insert_loop`, and with `replace` set `avl_tree_replace_loop`, which differs only in
    what it does with an equal key. `memory` says whether a node can be allocated.
   */
  function Put(t: Tree, e: Elem, replace: bool, memory: bool): (r: Inserted)
    requires Balanced(t)
    ensures Grown(t, r)
  {
    if t.Nil? then
      if memory then Inserted(Node(Nil, e, Nil, 0), true, 1) else Inserted(Nil, false, -ENOMEM)
    else if t.data.key > e.key then
      var s := Put(t.left, e, replace, memory);
      AfterLeftInsertOk(t, s);
      AfterLeftInsert(t, s)
    else if t.data.key < e.key then
      var s := Put(t.right, e, replace, memory);
      AfterRightInsertOk(t, s);
      AfterRightInsert(t, s)
    else Inserted(if replace then t.(data := e) else t, false, 0)
  }

  ghost predicate HasKey(t: Tree, k: int) { exists e :: e in Elems(t) && e.key == k }

  lemma AfterInsertSearch(t: Tree, s: Inserted, left: bool)
    requires t.Node? && Balanced(t) && Grown(if left then t.left else t.right, s)
    requires Search(if left then t.(left := s.tree) else t.(right := s.tree))
    ensures left ==> s.taller && t.balance == -1 ==> CanRaiseLeft(t.(left := s.tree))
    ensures !left ==> s.taller && t.balance == 1 ==> CanRaiseRight(t.(right := s.tree))
    ensures var r := if left then AfterLeftInsert(t, s) else AfterRightInsert(t, s);
            && Search(r.tree) && Elems(r.tree) == Elems(if left then t.(left := s.tree) else t.(right := s.tree))
            && r.result == s.result
  {
    hide Search, Elems, Balanced, Height, RaiseLeft, RaiseRight;
    if left {
      AfterLeftInsertOk(t, s);
      var u := t.(left := s.tree);
      SetBalance(u, -1);
      SetBalance(u, 0);
      if s.taller && t.balance == -1 {
        RaiseLeftSearch(u);
      }
    } else {
      AfterRightInsertOk(t, s);
      var u := t.(right := s.tree);
      SetBalance(u, 1);
      SetBalance(u, 0);
      if s.taller && t.balance == 1 {
        RaiseRightSearch(u);
      }
    }
  }

  /** The elements of a tree after `Put`, given what it returned. */
  ghost function PutElems(s: set<Elem>, e: Elem, replace: bool, result: int): set<Elem> {
    if result == 1 then s + {e}
    else if result == 0 && replace then (set x | x in s && x.key != e.key) + {e}
    else s
  }

  /** Result codes tell the truth. */
  ghost predicate PutResult(t: Tree, e: Elem, memory: bool, result: int) {
    result == if HasKey(t, e.key) then 0 else if memory then 1 else -ENOMEM
  }

  lemma KeyOnLeft(t: Tree, k: int)
    requires t.Node? && Search(t) && k < t.data.key
    ensures HasKey(t, k) <==> HasKey(t.left, k)
  {
  }

  lemma KeyOnRight(t: Tree, k: int)
    requires t.Node? && Search(t) && k > t.data.key
    ensures HasKey(t, k) <==> HasKey(t.right, k)
  {
  }

  /** Changing elements on one side of the root keeps search order and changes just those. */
  lemma GraftLeft(t: Tree, l: Tree, e: Elem, replace: bool, result: int)
    requires t.Node? && Search(t) && Search(l) && e.key < t.data.key
    requires Elems(l) == PutElems(Elems(t.left), e, replace, result)
    ensures Search(t.(left := l)) && Elems(t.(left := l)) == PutElems(Elems(t), e, replace, result)
  {
    var s := Elems(t);
    assert Below(l, t.data.key);
    assert forall x :: x in Elems(t.right) + {t.data} ==> x.key != e.key;
    assert (set x | x in s && x.key != e.key)
        == (set x | x in Elems(t.left) && x.key != e.key) + {t.data} + Elems(t.right);
  }

  lemma GraftRight(t: Tree, r: Tree, e: Elem, replace: bool, result: int)
    requires t.Node? && Search(t) && Search(r) && e.key > t.data.key
    requires Elems(r) == PutElems(Elems(t.right), e, replace, result)
    ensures Search(t.(right := r)) && Elems(t.(right := r)) == PutElems(Elems(t), e, replace, result)
  {
  }

  /** Insert and replace keep search order and change the element set by exactly what they report. */
  lemma {:induction false} PutCorrect(t: Tree, e: Elem, replace: bool, memory: bool)
    requires Avl(t)
    ensures var r := Put(t, e, replace, memory);
            && Avl(r.tree) && PutResult(t, e, memory, r.result)
            && Elems(r.tree) == PutElems(Elems(t), e, replace, r.result)
  {
    if t.Node? {
      var s;
      if t.data.key > e.key {
        PutCorrect(t.left, e, replace, memory);
        KeyOnLeft(t, e.key);
        s := Put(t.left, e, replace, memory);
        GraftLeft(t, s.tree, e, replace, s.result);
        AfterInsertSearch(t, s, true);
      } else if t.data.key < e.key {
        PutCorrect(t.right, e, replace, memory);
        KeyOnRight(t, e.key);
        s := Put(t.right, e, replace, memory);
        GraftRight(t, s.tree, e, replace, s.result);
        AfterInsertSearch(t, s, false);
      } else {
        PutAtRoot(t, e);
      }
    }
  }

  lemma PutAtRoot(t: Tree, e: Elem)
    requires t.Node? && Search(t) && t.data.key == e.key
    ensures HasKey(t, e.key)
    ensures Search(t.(data := e)) && Elems(t.(data := e)) == PutElems(Elems(t), e, true, 0)
  {
  }

  // ---------- delete ----------

  /** New tree, whether it is shorter, and whether an element was removed. */
  datatype Removed = Removed(tree: Tree, shorter: bool, found: bool)

  /** The left subtree has been replaced by `s`; adjust the node. */
  function AfterLeftDelete(t: Tree, s: Removed): (r: Removed)
    requires t.Node? && (s.shorter && t.balance == 1 ==> CanRaiseRight(t.(left := s.tree)))
  {
    var u := t.(left := s.tree);
    if !s.shorter then Removed(u, false, s.found)
    else if t.balance == -1 then Removed(u.(balance := 0), true, s.found)
    else if t.balance == 0 then Removed(u.(balance := 1), false, s.found)
    else if t.balance == 1 then Removed(RaiseRight(u), u.right.balance != 0, s.found)
    else Removed(u, true, s.found)
  }

  function AfterRightDelete(t: Tree, s: Removed): (r: Removed)
    requires t.Node? && (s.shorter && t.balance == -1 ==> CanRaiseLeft(t.(right := s.tree)))
  {
    var u := t.(right := s.tree);
    if !s.shorter then Removed(u, false, s.found)
    else if t.balance == -1 then Removed(RaiseLeft(u), u.left.balance != 0, s.found)
    else if t.balance == 0 then Removed(u.(balance := -1), false, s.found)
    else Removed(u.(balance := 0), true, s.found)
  }

  ghost predicate Shrunk(t: Tree, r: Removed) {
    Balanced(r.tree) && Height(t) == Height(r.tree) + (if r.shorter then 1 else 0)
  }

  lemma AfterLeftDeleteOk(t: Tree, s: Removed)
    requires t.Node? && Balanced(t) && Shrunk(t.left, s)
    ensures s.shorter && t.balance == 1 ==> CanRaiseRight(t.(left := s.tree))
    ensures Shrunk(t, AfterLeftDelete(t, s))
  {
    hide Balanced, Height, RaiseRight;
    OpenNode(t);
    var u := t.(left := s.tree);
    OpenNode(u);
    if s.shorter && t.balance == 1 {
      RaiseRightBalanced(u);
    } else {
      MakeNode(u.left, u.data, u.right, if !s.shorter then t.balance else t.balance + 1);
    }
  }

  lemma AfterRightDeleteOk(t: Tree, s: Removed)
    requires t.Node? && Balanced(t) && Shrunk(t.right, s)
    ensures s.shorter && t.balance == -1 ==> CanRaiseLeft(t.(right := s.tree))
    ensures Shrunk(t, AfterRightDelete(t, s))
  {
    hide Balanced, Height, RaiseLeft;
    OpenNode(t);
    var u := t.(right := s.tree);
    OpenNode(u);
    if s.shorter && t.balance == -1 {
      RaiseLeftBalanced(u);
    } else {
      MakeNode(u.left, u.data, u.right, if !s.shorter then t.balance else t.balance - 1);
    }
  }

  /** The delete loop in its second mode: cut off the rightmost node and hand its data up. */
  function CutMax(t: Tree): (r: (Removed, Elem))
    requires t.Node? && Balanced(t)
    ensures Shrunk(t, r.0)
  {
    if t.right.Nil? then (Removed(t.left, true, true), t.data)
    else
      var (s, d) := CutMax(t.right);
      AfterRightDeleteOk(t, s);
      (AfterRightDelete(t, s), d)
  }

  function Delete(t: Tree, k: int): (r: Removed)
    requires Balanced(t)
    ensures Shrunk(t, r)
  {
    if t.Nil? then Removed(Nil, false, false)
    else if t.data.key > k then
      var s := Delete(t.left, k);
      AfterLeftDeleteOk(t, s);
      AfterLeftDelete(t, s)
    else if t.data.key < k then
      var s := Delete(t.right, k);
      AfterRightDeleteOk(t, s);
      AfterRightDelete(t, s)
    else if t.left.Nil? then Removed(t.right, true, true)
    else if t.right.Nil? then Removed(t.left, true, true)
    else
      var (s, d) := CutMax(t.left);
      var u := t.(data := d);
      MakeNode(t.left, d, t.right, t.balance);
      AfterLeftDeleteOk(u, s);
      AfterLeftDelete(u, s)
  }

  lemma AfterDeleteSearch(t: Tree, s: Removed, left: bool)
    requires t.Node? && Balanced(t) && Shrunk(if left then t.left else t.right, s)
    requires Search(if left then t.(left := s.tree) else t.(right := s.tree))
    ensures left ==> s.shorter && t.balance == 1 ==> CanRaiseRight(t.(left := s.tree))
    ensures !left ==> s.shorter && t.balance == -1 ==> CanRaiseLeft(t.(right := s.tree))
    ensures var r := if left then AfterLeftDelete(t, s) else AfterRightDelete(t, s);
            && Search(r.tree) && Elems(r.tree) == Elems(if left then t.(left := s.tree) else t.(right := s.tree))
            && r.found == s.found
  {
    hide Search, Elems, Balanced, Height, RaiseLeft, RaiseRight;
    if left {
      AfterLeftDeleteOk(t, s);
      var u := t.(left := s.tree);
      SetBalance(u, 1);
      SetBalance(u, 0);
      if s.shorter && t.balance == 1 {
        RaiseRightSearch(u);
      }
    } else {
      AfterRightDeleteOk(t, s);
      var u := t.(right := s.tree);
      SetBalance(u, -1);
      SetBalance(u, 0);
      if s.shorter && t.balance == -1 {
        RaiseLeftSearch(u);
      }
    }
  }

  /** A subtree that loses elements keeps its place under the node. */
  lemma PruneLeft(t: Tree, l: Tree)
    requires t.Node? && Search(t) && Search(l) && Elems(l) <= Elems(t.left)
    ensures Search(t.(left := l)) && Elems(t.(left := l)) == Elems(l) + {t.data} + Elems(t.right)
  {
  }

  lemma PruneRight(t: Tree, r: Tree)
    requires t.Node? && Search(t) && Search(r) && Elems(r) <= Elems(t.right)
    ensures Search(t.(right := r)) && Elems(t.(right := r)) == Elems(t.left) + {t.data} + Elems(r)
  {
  }

  /** The element handed up is the largest, and exactly it is gone. */
  lemma {:induction false} CutMaxCorrect(t: Tree)
    requires t.Node? && Avl(t)
    ensures var (s, d) := CutMax(t);
            && Search(s.tree) && s.found && d in Elems(t) && Elems(s.tree) == Elems(t) - {d}
            && Below(s.tree, d.key)
  {
    if t.right.Nil? {
      assert t.data !in Elems(t.left);
    } else {
      CutMaxCorrect(t.right);
      var (s, d) := CutMax(t.right);
      PruneRight(t, s.tree);
      AfterDeleteSearch(t, s, false);
      MaxOnRight(t, s.tree, d);
    }
  }

  lemma MaxOnRight(t: Tree, r: Tree, d: Elem)
    requires t.Node? && Search(t) && d in Elems(t.right) && Elems(r) == Elems(t.right) - {d} && Below(r, d.key)
    ensures Elems(t) - {d} == Elems(t.left) + {t.data} + Elems(r)
    ensures forall e :: e in Elems(t) - {d} ==> e.key < d.key
  {
  }

  /** The predecessor can take the root's place. */
  lemma Promote(t: Tree, l: Tree, d: Elem)
    requires t.Node? && Search(t) && Search(l) && d in Elems(t.left)
    requires Elems(l) == Elems(t.left) - {d} && Below(l, d.key)
    ensures Search(t.(data := d, left := l)) && Elems(t.(data := d, left := l)) == Elems(t) - {t.data}
  {
    assert t.data !in Elems(t.left) && t.data !in Elems(t.right);
    assert Above(t.right, d.key);
  }

  lemma WithoutKeyLeft(t: Tree, k: int)
    requires t.Node? && Search(t) && k < t.data.key
    ensures (set e | e in Elems(t) && e.key != k)
         == (set e | e in Elems(t.left) && e.key != k) + {t.data} + Elems(t.right)
  {
  }

  lemma WithoutKeyRight(t: Tree, k: int)
    requires t.Node? && Search(t) && k > t.data.key
    ensures (set e | e in Elems(t) && e.key != k)
         == Elems(t.left) + {t.data} + (set e | e in Elems(t.right) && e.key != k)
  {
  }

  lemma WithoutRoot(t: Tree)
    requires t.Node? && Search(t)
    ensures (set e | e in Elems(t) && e.key != t.data.key) == Elems(t) - {t.data}
    ensures Elems(t) - {t.data} == Elems(t.left) + Elems(t.right)
    ensures HasKey(t, t.data.key)
  {
  }

  /** Delete keeps the invariant and removes exactly the element with that key, if there is one. */
  lemma {:induction false} DeleteCorrect(t: Tree, k: int)
    requires Avl(t)
    ensures var r := Delete(t, k);
            && Avl(r.tree) && (r.found <==> HasKey(t, k))
            && Elems(r.tree) == set e | e in Elems(t) && e.key != k
  {
    hide Balanced, Height;
    if t.Node? {
      OpenNode(t);
      if t.data.key > k {
        DeleteCorrect(t.left, k);
        KeyOnLeft(t, k);
        WithoutKeyLeft(t, k);
        PruneLeft(t, Delete(t.left, k).tree);
        AfterDeleteSearch(t, Delete(t.left, k), true);
      } else if t.data.key < k {
        DeleteCorrect(t.right, k);
        KeyOnRight(t, k);
        WithoutKeyRight(t, k);
        PruneRight(t, Delete(t.right, k).tree);
        AfterDeleteSearch(t, Delete(t.right, k), false);
      } else {
        WithoutRoot(t);
        if t.left.Node? && t.right.Node? {
          CutMaxCorrect(t.left);
          var (s, d) := CutMax(t.left);
          Promote(t, s.tree, d);
          var u := t.(data := d);
          MakeNode(t.left, d, t.right, t.balance);
          assert u.(left := s.tree) == t.(data := d, left := s.tree);
          AfterDeleteSearch(u, s, true);
        }
      }
    }
  }

  // ---------- searching ----------

  /** `avl_tree_find` */
  function Find(t: Tree, k: int): (r: Option<Elem>) {
    if t.Nil? then None
    else if t.data.key > k then Find(t.left, k)
    else if t.data.key < k then Find(t.right, k)
    else Some(t.data)
  }

  /** `avl_tree_find_ge` */
  function FindGe(t: Tree, k: int): (r: Option<Elem>) {
    if t.Nil? then None
    else if t.data.key > k then
      if t.left.Nil? then Some(t.data)
      else
        var found := FindGe(t.left, k);
        if found.Some? then found else Some(t.data)
    else if t.data.key < k then FindGe(t.right, k)
    else Some(t.data)
  }

  lemma {:induction false} FindCorrect(t: Tree, k: int)
    requires Search(t)
    ensures match Find(t, k)
            case Some(e) => e in Elems(t) && e.key == k
            case None => !HasKey(t, k)
  {
    if t.Node? {
      if t.data.key > k {
        FindCorrect(t.left, k);
        KeyOnLeft(t, k);
      } else if t.data.key < k {
        FindCorrect(t.right, k);
        KeyOnRight(t, k);
      }
    }
  }

  /** The least element not below the target, or none exactly when there is none. */
  lemma {:induction false} FindGeCorrect(t: Tree, k: int)
    requires Search(t)
    ensures match FindGe(t, k)
            case Some(e) => e in Elems(t) && e.key >= k && forall x :: x in Elems(t) && x.key >= k ==> e.key <= x.key
            case None => forall x :: x in Elems(t) ==> x.key < k
  {
    if t.Node? {
      if t.data.key > k {
        FindGeCorrect(t.left, k);
      } else if t.data.key < k {
        FindGeCorrect(t.right, k);
      }
    }
  }

  // ---------- height ----------

  ghost function Fib(n: nat): nat {
    if n < 2 then n else Fib(n - 1) + Fib(n - 2)
  }

  lemma {:induction false} FibMonotonic(m: nat, n: nat)
    requires m <= n
    ensures Fib(m) <= Fib(n)
    decreases n
  {
    if m < n && n >= 2 {
      FibMonotonic(m, n - 1);
    }
  }

  /** A tree of height h has at least Fib(h + 2) - 1 elements. */
  lemma {:induction false} HeightBound(t: Tree)
    requires Avl(t)
    ensures Fib(Height(t) + 2) <= |Elems(t)| + 1
  {
    hide Search, Balanced, Elems, Height;
    OpenNode(t);
    if t.Node? {
      AvlParts(t);
      HeightBound(t.left);
      HeightBound(t.right);
      CountNode(t);
      var h := Height(t);
      assert Fib(h + 2) == Fib(h + 1) + Fib(h);
      FibMonotonic(h, Height(t.left) + 2);
      FibMonotonic(h, Height(t.right) + 2);
    }
  }

  lemma AvlParts(t: Tree)
    requires Avl(t) && t.Node?
    ensures Avl(t.left) && Avl(t.right)
  {
  }

  lemma CountNode(t: Tree)
    requires t.Node? && Search(t)
    ensures |Elems(t)| == |Elems(t.left)| + 1 + |Elems(t.right)|
  {
  }

  // ---------- every reachable tree ----------

  datatype Op = PutOp(elem: Elem, replace: bool, memory: bool) | DeleteOp(key: int)

  ghost function Run(ops: seq<Op>): (t: Tree)
    ensures Balanced(t)
    decreases |ops|
  {
    if ops == [] then Nil
    else
      var t := Run(ops[..|ops| - 1]);
      match ops[|ops| - 1]
      case PutOp(e, replace, memory) => Put(t, e, replace, memory).tree
      case DeleteOp(k) => Delete(t, k).tree
  }

  /** The same operations on a plain map from key to payload. */
  ghost function PutMap(m: map<int, int>, e: Elem, replace: bool, memory: bool): map<int, int> {
    if (e.key in m && replace) || (e.key !in m && memory) then m[e.key := e.payload] else m
  }

  ghost function RunMap(ops: seq<Op>): map<int, int>
    decreases |ops|
  {
    if ops == [] then map[]
    else
      var m := RunMap(ops[..|ops| - 1]);
      match ops[|ops| - 1]
      case PutOp(e, replace, memory) => PutMap(m, e, replace, memory)
      case DeleteOp(k) => m - {k}
  }

  ghost predicate Represents(t: Tree, m: map<int, int>) {
    forall e :: e in Elems(t) <==> e.key in m && m[e.key] == e.payload
  }

  lemma KeysOf(t: Tree, m: map<int, int>, k: int)
    requires Represents(t, m)
    ensures HasKey(t, k) <==> k in m
  {
    if k in m {
      assert Elem(k, m[k]) in Elems(t);
    }
  }

  lemma PutRefines(t: Tree, m: map<int, int>, e: Elem, replace: bool, memory: bool)
    requires Avl(t) && Represents(t, m)
    ensures var r := Put(t, e, replace, memory);
            && Avl(r.tree) && Represents(r.tree, PutMap(m, e, replace, memory))
            && r.result == if e.key in m then 0 else if memory then 1 else -ENOMEM
  {
    hide Avl;
    PutCorrect(t, e, replace, memory);
    KeysOf(t, m, e.key);
  }

  lemma DeleteRefines(t: Tree, m: map<int, int>, k: int)
    requires Avl(t) && Represents(t, m)
    ensures var r := Delete(t, k);
            Avl(r.tree) && Represents(r.tree, m - {k}) && (r.found <==> k in m)
  {
    hide Avl;
    DeleteCorrect(t, k);
    KeysOf(t, m, k);
  }

  /** Over any run of inserts, replaces and deletes the tree is an AVL tree holding exactly a map's entries. */
  lemma {:induction false} RefinesMap(ops: seq<Op>)
    ensures Avl(Run(ops)) && Represents(Run(ops), RunMap(ops))
    decreases |ops|
  {
    hide Avl, Represents, Put, Delete, PutMap;
    if ops == [] {
      EmptyRepresents();
    } else {
      var front := ops[..|ops| - 1];
      RefinesMap(front);
      match ops[|ops| - 1]
      case PutOp(e, replace, memory) => PutRefines(Run(front), RunMap(front), e, replace, memory);
      case DeleteOp(k) => DeleteRefines(Run(front), RunMap(front), k);
    }
  }

  lemma EmptyRepresents()
    ensures Avl(Nil) && Represents(Nil, map[])
  {
  }
}
