/** One bucket of the hash table as the source keeps it: nodes linked through their `next` pointers. */
module HashLinks {
  import opened Bytes
  import opened HashChains
  import MemoryPool

  class Cell {
    var node: Node
    var next: Cell?

    constructor (node: Node)
      ensures this.node == node && next == null
    {
      this.node, next := node, null;
    }
  }

  ghost function At(c: seq<Cell>, k: nat): Cell? { if k < |c| then c[k] else null }

  ghost predicate Apart(c: seq<Cell>) { forall i, j | 0 <= i < j < |c| :: c[i] != c[j] }

  ghost function Nodes(c: seq<Cell>): (ns: seq<Node>)
    reads c
    ensures |ns| == |c|
  {
    seq(|c|, k requires 0 <= k < |c| reads c => c[k].node)
  }

  /** Cells `a` to `b` each point to the next one. */
  ghost predicate Linked(c: seq<Cell>, a: nat, b: nat)
    reads c
  {
    forall k | a <= k < b && k < |c| :: LinkedAt(c, k)
  }

  ghost predicate LinkedAt(c: seq<Cell>, k: nat)
    requires k < |c|
    reads c
  {
    c[k].next == At(c, k + 1)
  }

  class Bucket {
    var head: Cell?
    ghost var cells: seq<Cell>

    ghost predicate Valid()
      reads this, cells
    {
      head == At(cells, 0) && Apart(cells) && Linked(cells, 0, |cells|)
    }

    /** The chain as a value. */
    ghost function Chain(): seq<Node>
      reads this, cells
    {
      Nodes(cells)
    }

    constructor ()
      ensures Valid() && Chain() == []
    {
      head, cells := null, [];
    }

    /** The walk of `hash_insert_ex` and `hash_delete`: the first cell with the key, and the one before it. */
    method FindEntry(key: Key) returns (previous: Cell?, cell: Cell?, ghost k: nat)
      requires Valid()
      ensures k <= |cells| && cell == At(cells, k) && previous == (if k == 0 then null else cells[k - 1])
      ensures forall j | 0 <= j < k :: Chain()[j].key != key
      ensures k < |cells| ==> Chain()[k].key == key
      ensures cell == null <==> Lookup(Chain(), key) == None
    {
      previous, cell, k := null, head, 0;
      while cell != null && cell.node.key != key
        invariant k <= |cells| && cell == At(cells, k) && previous == (if k == 0 then null else cells[k - 1])
        invariant forall j | 0 <= j < k :: Chain()[j].key != key
        decreases |cells| - k
      {
        assert LinkedAt(cells, k);
        previous := cell;
        cell := cell.next;
        k := k + 1;
      }
      if k < |cells| {
        assert Chain()[k] in Chain();
      }
    }

    /** `ADD_TO_BUCKET` */
    method AddToBucket(cell: Cell)
      requires Valid() && cell !in cells
      modifies this, cell`next
      ensures Valid() && cells == [cell] + old(cells) && Chain() == [cell.node] + old(Chain())
    {
      cell.next := head;
      head := cell;
      ghost var was := cells;
      cells := [cell] + cells;
      forall k | 0 <= k < |cells| ensures LinkedAt(cells, k) {
        if k > 0 {
          assert cells[k] == was[k - 1] && old(LinkedAt(was, k - 1));
        }
      }
    }

    /** `DELETE_FROM_BUCKET` */
    method DeleteFromBucket(previous: Cell?, cell: Cell, ghost k: nat)
      requires Valid() && k < |cells| && cell == cells[k] && previous == (if k == 0 then null else cells[k - 1])
      modifies this, cells`next
      ensures Valid() && cells == old(cells[..k] + cells[k + 1..])
      ensures Chain() == RemoveAt(old(Chain()), k)
    {
      ghost var was := cells;
      assert LinkedAt(was, k);
      if previous == null {
        head := cell.next;
      } else {
        previous.next := cell.next;
      }
      cells := was[..k] + was[k + 1..];
      forall j | 0 <= j < |cells| ensures LinkedAt(cells, j) {
        if j < k {
          assert cells[j] == was[j] && old(LinkedAt(was, j));
        } else {
          assert cells[j] == was[j + 1] && old(LinkedAt(was, j + 1));
        }
      }
    }

    /** A cell that stays is hung behind the last one that does. */
    method Keep(previous: Cell?, cell: Cell, ghost kept: seq<Cell>, ghost was: seq<Cell>, ghost i: nat)
      requires Apart(was) && i < |was| && cell == was[i] && Linked(was, i, |was|)
      requires Sieved(head, kept, was, i) && previous == Last(kept)
      modifies this`head, was`next
      ensures Linked(was, i, |was|) && Sieved(head, kept + [cell], was, i + 1)
    {
      ghost var more := kept + [cell];
      KeptBefore(head, kept, was, i);
      assert previous != null ==> previous in kept;
      if previous == null {
        head := cell;
      } else {
        previous.next := cell;
      }
      forall k | i <= k < |was| ensures LinkedAt(was, k) {
        assert old(LinkedAt(was, k));
      }
      forall k | 0 <= k < |more| - 1 ensures JoinedAt(more, k) {
        if k < |kept| - 1 {
          assert old(JoinedAt(kept, k)) && kept[k] != kept[|kept| - 1];
        }
      }
      assert was[..i + 1][i] == cell;
    }

    /** The inner loop of `mp_clear_expired_keys`: relink the cells that stay, drop the others. */
    method Sweep(now: int)
      requires Valid()
      modifies this, cells`next
      ensures Valid() && Chain() == MemoryPool.Kept(old(Chain()), now)
      ensures forall c | c in cells :: c in old(cells)
    {
      hide MemoryPool.Expired, MemoryPool.Kept, Apart, Sieved, Linked;
      ghost var was, nodes := cells, Chain();
      MemoryPool.KeptNothing(now);
      SieveNothing(head, was);
      var cell, previous: Cell? := head, null;
      ghost var kept: seq<Cell>, i: nat := [], 0;
      while cell != null
        invariant i <= |was| && cell == At(was, i) && cells == was && previous == Last(kept)
        invariant Linked(was, i, |was|) && Sieved(head, kept, was, i)
        invariant forall k | 0 <= k < |was| :: was[k].node == nodes[k]
        invariant forall c | c in kept :: c in was
        invariant Nodes(kept) == MemoryPool.Kept(nodes[..i], now)
        decreases |was| - i
      {
        MemoryPool.KeptStep(nodes, i, now);
        if !MemoryPool.Expired(cell.node.value, now) {
          Keep(previous, cell, kept, was, i);
          previous := cell;
          kept := kept + [cell];
        } else {
          SieveOne(head, kept, was, i);
        }
        NextIs(was, i);
        cell := cell.next;
        i := i + 1;
      }
      assert nodes[..i] == nodes;
      Finish(previous, kept, was);
    }

    /** The last cell that stays ends the chain. */
    method Finish(previous: Cell?, ghost kept: seq<Cell>, ghost was: seq<Cell>)
      requires Sieved(head, kept, was, |was|) && previous == Last(kept)
      modifies this, was`next
      ensures Valid() && cells == kept
    {
      assert forall c | c in kept :: c in was;
      if previous == null {
        head := null;
      } else {
        assert previous in kept;
        previous.next := null;
      }
      cells := kept;
      forall k | 0 <= k < |kept| ensures LinkedAt(kept, k) {
        if k < |kept| - 1 {
          assert old(JoinedAt(kept, k)) && kept[k] != kept[|kept| - 1];
        }
      }
    }
  }

  ghost function Last(c: seq<Cell>): Cell? { if c == [] then null else c[|c| - 1] }

  ghost predicate JoinedAt(c: seq<Cell>, k: nat)
    requires k + 1 < |c|
    reads c
  {
    c[k].next == c[k + 1]
  }

  /** Of the first `i` cells, `kept` stay; they are linked with one another from `head` on. */
  ghost predicate Sieved(head: Cell?, kept: seq<Cell>, was: seq<Cell>, i: nat)
    reads kept
  {
    && i <= |was| && Apart(kept) && (forall c | c in kept :: c in was[..i])
    && (kept != [] ==> head == kept[0])
    && (forall k | 0 <= k < |kept| - 1 :: JoinedAt(kept, k))
  }

  lemma SieveNothing(head: Cell?, was: seq<Cell>)
    ensures Sieved(head, [], was, 0)
  {
  }

  /** The cells kept so far are not among those still to come. */
  lemma KeptBefore(head: Cell?, kept: seq<Cell>, was: seq<Cell>, i: nat)
    requires Sieved(head, kept, was, i) && Apart(was) && i < |was|
    ensures forall c | c in kept :: c in was && c in was[..i + 1] && c != was[i]
    ensures forall c, k | c in kept && i <= k < |was| :: was[k] != c
    ensures was[i] !in kept && Apart(kept + [was[i]])
  {
    forall c | c in kept ensures c in was && c in was[..i + 1] && forall k | i <= k < |was| :: was[k] != c {
      var j :| 0 <= j < i && was[..i][j] == c;
      assert was[..i + 1][j] == c && was[j] == c;
    }
  }

  lemma SieveOne(head: Cell?, kept: seq<Cell>, was: seq<Cell>, i: nat)
    requires Sieved(head, kept, was, i) && i < |was|
    ensures Sieved(head, kept, was, i + 1)
  {
    forall c | c in kept ensures c in was[..i + 1] {
      var j :| 0 <= j < i && was[..i][j] == c;
      assert was[..i + 1][j] == c;
    }
  }

  lemma NextIs(was: seq<Cell>, i: nat)
    requires i < |was| && Linked(was, i, |was|)
    ensures was[i].next == At(was, i + 1) && Linked(was, i + 1, |was|)
  {
    assert LinkedAt(was, i);
  }
}
