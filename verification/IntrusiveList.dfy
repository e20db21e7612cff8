/** The circular doubly linked lists of list.hpp. A list is a ring of nodes one of which, its terminator, stands for the
    list itself; the operations relink nodes in place and never need to know which list a node is in. The ring is given
    to them as a ghost argument. */
module IntrusiveList {

  class Node<T> {
    var prev: Node?<T>
    var next: Node?<T>
    const item: T  // the object that the node is embedded in

    constructor (item: T)
      ensures this.item == item && prev == next == null
    {
      this.item := item;
      prev, next := null, null;
    }
  }

  function After(i: nat, n: nat): nat {
    if i + 1 == n then 0 else i + 1
  }

  /** The node at position i and the one after it point at each other. */
  ghost predicate Linked<T>(r: seq<Node<T>>, i: nat)
    requires i < |r|
    reads r
  {
    r[i].next == r[After(i, |r|)] && r[After(i, |r|)].prev == r[i]
  }

  ghost predicate Distinct<T>(r: seq<T>) {
    forall i, j | 0 <= i < j < |r| :: r[i] != r[j]
  }

  ghost predicate Differ<T>(r: seq<T>, i: nat, j: nat)
    requires i < |r| && j < |r|
  {
    r[i] != r[j]
  }

  lemma SplicedDistinct<T>(r: seq<T>, k: nat, c: seq<T>)
    requires Distinct(r) && Distinct(c) && k < |r| && forall x | x in c :: x !in r
    ensures Distinct(r[..k + 1] + c + r[k + 1..])
  {
    var s := r[..k + 1] + c + r[k + 1..];
    forall i, j | 0 <= i < j < |s| ensures s[i] != s[j] {
      SplicedAt(r, k, c, i);
      SplicedAt(r, k, c, j);
      if k < i <= k + |c| < j || i <= k < j <= k + |c| {
        assert (s[i] in c && s[j] in r) || (s[i] in r && s[j] in c);
      }
    }
  }

  lemma NotSame<T>(r: seq<T>, i: nat, j: nat)
    requires Distinct(r) && i < |r| && j < |r| && i != j
    ensures r[i] != r[j]
  {
    if i < j {
      assert r[i] != r[j];
    } else {
      assert r[j] != r[i];
    }
  }

  lemma AfterUnique(i: nat, j: nat, n: nat)
    requires i < n && j < n && i != j
    ensures After(i, n) != After(j, n) && After(i, n) < n
  {
  }

  lemma SplicedAt<T>(r: seq<T>, k: nat, c: seq<T>, i: nat)
    requires k < |r| && i < |r| + |c|
    ensures (r[..k + 1] + c + r[k + 1..])[i] ==
            if i <= k then r[i] else if i <= k + |c| then c[i - k - 1] else r[i - |c|]
  {
  }

  lemma TailDistinct<T>(x: T, c: seq<T>)
    requires Distinct([x] + c)
    ensures Distinct(c) && x !in c
  {
    var d := [x] + c;
    assert forall i | 0 <= i < |c| :: c[i] == d[i + 1] && d[0] != d[i + 1];
  }

  /** The nodes of a ring in order, each once. */
  ghost predicate Ring<T>(r: seq<Node<T>>)
    reads r
  {
    && r != []
    && (forall i: nat, j: nat {:trigger Differ(r, i, j)} | i < j < |r| :: Differ(r, i, j))
    && (forall i: nat {:trigger Linked(r, i)} | i < |r| :: Linked(r, i))
  }

  lemma RingDistinct<T>(r: seq<Node<T>>)
    requires Ring(r)
    ensures Distinct(r)
  {
    forall i, j | 0 <= i < j < |r| ensures r[i] != r[j] {
      assert Differ(r, i, j);
    }
  }

  /** A ring can be read starting from any of its nodes. */
  lemma Rotate<T>(r: seq<Node<T>>, k: nat)
    requires Ring(r) && k < |r|
    ensures Ring(r[k..] + r[..k])
  {
    RingDistinct(r);
    var s := r[k..] + r[..k];
    forall i: nat | i < |s| ensures Linked(s, i) {
      assert Linked(r, if i + k < |r| then i + k else i + k - |r|);
    }
  }

  /** list_init */
  method Init<T>(node: Node<T>)
    modifies node
    ensures Ring([node])
  {
    node.prev := node;
    node.next := node;
    assert Linked([node], 0);
  }

  /** list_empty, given the ring that the node is in. */
  method Empty<T>(node: Node<T>, ghost r: seq<Node<T>>) returns (b: bool)
    requires Ring(r) && node in r
    ensures b <==> r == [node]
  {
    RingDistinct(r);
    b := node.prev == node && node.next == node;
    ghost var k :| 0 <= k < |r| && r[k] == node;
    assert Linked(r, k);
  }

  /** list_insert_after */
  method InsertAfter<T>(after: Node<T>, node: Node<T>, ghost r: seq<Node<T>>, ghost k: nat)
    requires Ring(r) && k < |r| && r[k] == after && node !in r
    modifies after, after.next, node
    ensures Ring(r[..k + 1] + [node] + r[k + 1..])
  {
    RingDistinct(r);
    assert Linked(r, k);
    var afterNext := after.next;
    node.prev := after;
    node.next := afterNext;
    afterNext.prev := node;
    after.next := node;
    ghost var s := r[..k + 1] + [node] + r[k + 1..];
    SplicedDistinct(r, k, [node]);
    forall i: nat | i < |s| ensures Linked(s, i) {
      SplicedAt(r, k, [node], i);
      SplicedAt(r, k, [node], After(i, |s|));
      if i != k && i != k + 1 {
        var j := if i < k then i else i - 1;
        assert old(Linked(r, j));
        NotSame(r, j, k);
        AfterUnique(j, k, |r|);
        NotSame(r, After(j, |r|), After(k, |r|));
        assert s[i] == r[j] && s[After(i, |s|)] == r[After(j, |r|)];
      }
    }
  }

  /** list_erase: takes a node out of whatever ring it is in. Erasing the only node of a ring changes nothing. */
  method Erase<T>(node: Node<T>, ghost r: seq<Node<T>>, ghost k: nat)
    requires Ring(r) && k < |r| && r[k] == node
    modifies node.prev, node.next
    ensures |r| > 1 ==> Ring(r[..k] + r[k + 1..])
    ensures |r| == 1 ==> Ring(r)
  {
    RingDistinct(r);
    ghost var p: nat := if k == 0 then |r| - 1 else k - 1;
    assert Linked(r, p) && Linked(r, k);
    var prev := node.prev;
    var next := node.next;
    prev.next := next;
    next.prev := prev;
    ghost var s := if |r| == 1 then r else r[..k] + r[k + 1..];
    forall i: nat | i < |s| ensures Linked(s, i) {
      if |r| > 1 {
        var j := if i < k then i else i + 1;
        assert s[i] == r[j] && (j != p ==> s[After(i, |s|)] == r[After(j, |r|)])
               && (j == p ==> s[After(i, |s|)] == next);
        assert old(Linked(r, j));
        if j != p {
          NotSame(r, j, p);
          AfterUnique(j, k, |r|);
          NotSame(r, After(j, |r|), After(k, |r|));
        }
      }
    }
  }

  /** list_insert_before */
  method InsertBefore<T>(before: Node<T>, node: Node<T>, ghost r: seq<Node<T>>, ghost k: nat)
    requires Ring(r) && k < |r| && r[k] == before && node !in r
    modifies before, before.prev, node
    ensures Ring(if k == 0 then r + [node] else r[..k] + [node] + r[k..])
  {
    ghost var p: nat := if k == 0 then |r| - 1 else k - 1;
    assert Linked(r, p);
    InsertAfter(before.prev, node, r, p);
    assert k == 0 ==> r[..p + 1] + [node] + r[p + 1..] == r + [node];
  }

  /** The list of a terminator: its nodes from head to tail. */
  ghost predicate IsList<T>(list: Node<T>, q: seq<Node<T>>)
    reads [list] + q
  {
    Ring([list] + q)
  }

  method PushHead<T>(list: Node<T>, node: Node<T>, ghost q: seq<Node<T>>)
    requires IsList(list, q) && node !in [list] + q
    modifies [list] + q, node
    ensures IsList(list, [node] + q)
  {
    ghost var r := [list] + q;
    LinksInside(r, 0);
    InsertAfter(list, node, r, 0);
    assert r[..1] + [node] + r[1..] == [list] + ([node] + q);
  }

  method PushTail<T>(list: Node<T>, node: Node<T>, ghost q: seq<Node<T>>)
    requires IsList(list, q) && node !in [list] + q
    modifies [list] + q, node
    ensures IsList(list, q + [node])
  {
    LinksInside([list] + q, 0);
    InsertBefore(list, node, [list] + q, 0);
    assert [list] + q + [node] == [list] + (q + [node]);
  }

  /** list_pop_head: the terminator itself when the list is empty. */
  method PopHead<T>(list: Node<T>, ghost q: seq<Node<T>>) returns (popped: Node<T>)
    requires IsList(list, q)
    modifies [list] + q
    ensures q == [] ==> popped == list && IsList(list, [])
    ensures q != [] ==> popped == q[0] && IsList(list, q[1..])
  {
    ghost var r := [list] + q;
    assert Linked(r, 0);
    popped := list.next;
    ghost var k := if q == [] then 0 else 1;
    LinksInside(r, k);
    Erase(popped, r, k);
    assert q == [] ==> r == [list];
    assert q != [] ==> r[..1] + r[2..] == [list] + q[1..];
  }

  method PopTail<T>(list: Node<T>, ghost q: seq<Node<T>>) returns (popped: Node<T>)
    requires IsList(list, q)
    modifies [list] + q
    ensures q == [] ==> popped == list && IsList(list, [])
    ensures q != [] ==> popped == q[|q| - 1] && IsList(list, q[..|q| - 1])
  {
    ghost var r := [list] + q;
    assert Linked(r, |q|);
    popped := list.prev;
    LinksInside(r, |q|);
    Erase(popped, r, |q|);
    assert q == [] ==> r == [list];
    assert q != [] ==> r[..|q|] + r[|q| + 1..] == [list] + q[..|q| - 1];
  }

  /** The neighbours of a node of a ring are in the ring. */
  lemma LinksInside<T>(r: seq<Node<T>>, k: nat)
    requires Ring(r) && k < |r|
    ensures r[k].prev in r && r[k].next in r
  {
    assert Linked(r, k) && Linked(r, if k == 0 then |r| - 1 else k - 1);
  }

  /** The four writes of list_insert_chain_after, and the links they leave as they are. */
  method Relink<T>(node: Node<T>, chain: Node<T>, ghost r: seq<Node<T>>, ghost k: nat, ghost c: seq<Node<T>>)
    requires Ring(r) && k < |r| && r[k] == node
    requires c != [] && IsList(chain, c) && forall x | x in [chain] + c :: x !in r
    modifies r, c
    ensures forall j: nat {:trigger Linked(r, j)} | j < |r| && j != k :: Linked(r, j)
    ensures forall j: nat {:trigger Chained(c, j)} | j + 1 < |c| :: Chained(c, j)
    ensures node.next == c[0] && c[0].prev == node
    ensures c[|c| - 1].next == r[After(k, |r|)] && r[After(k, |r|)].prev == c[|c| - 1]
  {
    ghost var d := [chain] + c;
    RingDistinct(r);
    RingDistinct(d);
    assert Linked(d, 0) && Linked(d, |c|) && Linked(r, k);
    var chainHead := chain.next;
    var chainTail := chain.prev;
    var nodeNext := node.next;
    node.next := chainHead;
    chainHead.prev := node;
    chainTail.next := nodeNext;
    nodeNext.prev := chainTail;
    TailDistinct(chain, c);
    assert forall p | 0 <= p < |c| :: c[p] in d && c[p] !in r;
    forall j: nat | j < |r| && j != k ensures Linked(r, j) {
      assert old(Linked(r, j));
      NotSame(r, j, k);
      AfterUnique(j, k, |r|);
      NotSame(r, After(j, |r|), After(k, |r|));
    }
    forall j: nat | j + 1 < |c| ensures Chained(c, j) {
      assert old(Linked(d, j + 1)) && d[j + 1] == c[j] && d[j + 2] == c[j + 1];
      NotSame(c, j, |c| - 1);
      NotSame(c, j + 1, 0);
    }
  }

  ghost predicate Chained<T>(c: seq<Node<T>>, j: nat)
    requires j + 1 < |c|
    reads c
  {
    c[j].next == c[j + 1] && c[j + 1].prev == c[j]
  }

  /** A chain that is not empty comes to lie in the ring, behind the node. */
  method Splice<T>(node: Node<T>, chain: Node<T>, ghost r: seq<Node<T>>, ghost k: nat, ghost c: seq<Node<T>>)
    requires Ring(r) && k < |r| && r[k] == node
    requires c != [] && IsList(chain, c) && forall x | x in [chain] + c :: x !in r
    modifies r, c
    ensures Ring(r[..k + 1] + c + r[k + 1..])
  {
    RingDistinct(r);
    RingDistinct([chain] + c);
    TailDistinct(chain, c);
    assert forall x | x in c :: x in [chain] + c;
    SplicedDistinct(r, k, c);
    Relink(node, chain, r, k, c);
    ghost var s := r[..k + 1] + c + r[k + 1..];
    forall i: nat | i < |s| ensures Linked(s, i) {
      SplicedAt(r, k, c, i);
      SplicedAt(r, k, c, After(i, |s|));
      if i < k || k + |c| < i {
        var j := if i < k then i else i - |c|;
        assert Linked(r, j) && s[i] == r[j] && s[After(i, |s|)] == r[After(j, |r|)];
      } else if k < i < k + |c| {
        assert Chained(c, i - k - 1);
      }
    }
  }

  /** list_insert_chain_after: moves the nodes of a chain into the ring, and leaves the chain's terminator empty. */
  method InsertChainAfter<T>(node: Node<T>, chain: Node<T>, ghost r: seq<Node<T>>, ghost k: nat, ghost c: seq<Node<T>>)
    requires Ring(r) && k < |r| && r[k] == node
    requires IsList(chain, c) && forall x | x in [chain] + c :: x !in r
    modifies r, chain, c
    ensures Ring(r[..k + 1] + c + r[k + 1..]) && IsList(chain, [])
  {
    var empty := Empty(chain, [chain] + c);
    if empty {
      assert c == [] && r[..k + 1] + c + r[k + 1..] == r;
      return;
    }
    RingDistinct([chain] + c);
    TailDistinct(chain, c);
    Splice(node, chain, r, k, c);
    Init(chain);
    assert [chain] + [] == [chain];
  }

  /** list_insert_chain_before */
  method InsertChainBefore<T>(node: Node<T>, chain: Node<T>, ghost r: seq<Node<T>>, ghost k: nat, ghost c: seq<Node<T>>)
    requires Ring(r) && k < |r| && r[k] == node
    requires IsList(chain, c) && forall x | x in [chain] + c :: x !in r
    modifies r, chain, c
    ensures Ring(if k == 0 then r + c else r[..k] + c + r[k..]) && IsList(chain, [])
  {
    ghost var p: nat := if k == 0 then |r| - 1 else k - 1;
    assert Linked(r, p);
    InsertChainAfter(node.prev, chain, r, p, c);
    assert k == 0 ==> r[..p + 1] + c + r[p + 1..] == r + c;
  }
}
