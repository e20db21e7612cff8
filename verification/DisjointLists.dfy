/** Several intrusive lists at once, no two of which share a node. Taking a node out needs no more than the node: it
    leaves whichever of the lists it is in, and the others are as they were. */
module DisjointLists {
  import opened IntrusiveList

  ghost predicate Disjoint<T>(p: seq<T>, q: seq<T>) {
    forall i, j | 0 <= i < |p| && 0 <= j < |q| :: p[i] != q[j]
  }

  /** Rings a and b share no node. */
  ghost predicate Apart<T>(rings: seq<seq<T>>, a: nat, b: nat)
    requires a < |rings| && b < |rings|
  {
    a != b ==> Disjoint(rings[a], rings[b])
  }

  ghost predicate AllApart<T>(rings: seq<seq<T>>) {
    forall a: nat, b: nat {:trigger Apart(rings, a, b)} | a < |rings| && b < |rings| :: Apart(rings, a, b)
  }

  /** Replacing one of the rings by one whose elements it had, or nobody had, keeps them apart. */
  lemma StillApart<T>(rings: seq<seq<T>>, k: nat, ring: seq<T>)
    requires AllApart(rings) && k < |rings|
    requires forall x | x in ring :: x in rings[k] || forall b: nat | b < |rings| :: x !in rings[b]
    ensures AllApart(rings[k := ring])
  {
    var rings' := rings[k := ring];
    forall a: nat, b: nat | a < |rings'| && b < |rings'| ensures Apart(rings', a, b) {
      assert Apart(rings, a, b);
      if a != b {
        forall i, j | 0 <= i < |rings'[a]| && 0 <= j < |rings'[b]| ensures rings'[a][i] != rings'[b][j] {
          assert rings'[a][i] in rings'[a] && rings'[b][j] in rings'[b];
        }
      }
    }
  }

  /** What the rings hold besides their first elements. */
  ghost function MembersOf<T>(rings: seq<seq<T>>): set<T> {
    set k: nat, i: nat | k < |rings| && 0 < i < |rings[k]| :: rings[k][i]
  }

  lemma MembersPush<T>(rings: seq<seq<T>>, k: nat, x: T)
    requires k < |rings| && rings[k] != []
    ensures MembersOf(rings[k := rings[k][..1] + ([x] + rings[k][1..])]) == MembersOf(rings) + {x}
  {
    var ring := rings[k][..1] + ([x] + rings[k][1..]);
    var rings' := rings[k := ring];
    assert ring[1] == x && forall i: nat | 0 < i < |rings[k]| :: ring[i + 1] == rings[k][i];
    forall y | y in MembersOf(rings) + {x} ensures y in MembersOf(rings') {
      if y in MembersOf(rings) {
        var b: nat, i: nat :| b < |rings| && 0 < i < |rings[b]| && rings[b][i] == y;
        assert rings'[b][if b == k then i + 1 else i] == y;
      } else {
        assert rings'[k][1] == y;
      }
    }
  }

  lemma MembersErase<T>(rings: seq<seq<T>>, k: nat, i: nat)
    requires k < |rings| && 0 < i < |rings[k]|
    requires forall b: nat, j: nat | b < |rings| && j < |rings[b]| && (b != k || j != i) :: rings[b][j] != rings[k][i]
    ensures MembersOf(rings[k := rings[k][..i] + rings[k][i + 1..]]) == MembersOf(rings) - {rings[k][i]}
  {
    var ring := rings[k][..i] + rings[k][i + 1..];
    var rings' := rings[k := ring];
    forall y | y in MembersOf(rings) - {rings[k][i]} ensures y in MembersOf(rings') {
      var b: nat, j: nat :| b < |rings| && 0 < j < |rings[b]| && rings[b][j] == y;
      assert rings'[b][if b == k && j > i then j - 1 else j] == y;
    }
  }

  class Lists<T> {
    const heads: seq<Node<T>>
    ghost var rings: seq<seq<Node<T>>>  // the nodes of each list, its terminator first

    /** The nodes of list k from head to tail. */
    ghost function Queue(k: nat): seq<Node<T>>
      reads this
    {
      if k < |rings| && rings[k] != [] then rings[k][1..] else []
    }

    ghost function Repr(): set<Node<T>>
      reads this
    {
      set k: nat, i: nat | k < |rings| && i < |rings[k]| :: rings[k][i]
    }

    /** The nodes that are in some list. */
    ghost function Members(): set<Node<T>>
      reads this
    {
      MembersOf(rings)
    }

    lemma ReprIsMembersAndHeads()
      requires Valid()
      ensures Repr() == Members() + set h | h in heads
      ensures forall h | h in heads :: h !in Members()
    {
      forall h | h in heads ensures h in Repr() && h !in Members() {
        var k: nat :| k < |heads| && heads[k] == h;
        assert RingOk(k) && rings[k][0] == h;
        Alone(k, 0);
      }
      forall x | x in Repr() ensures x in Members() || x in heads {
        var k: nat, i: nat :| k < |rings| && i < |rings[k]| && rings[k][i] == x;
        assert RingOk(k);
      }
    }

    constructor (n: nat, blank: T)
      ensures Valid() && |heads| == n && Members() == {} && fresh(Repr())
      ensures forall k: nat | k < n :: rings[k] == [heads[k]] && heads[k].item == blank
    {
      var hs: seq<Node<T>> := [];
      ghost var rs: seq<seq<Node<T>>> := [];
      while |hs| < n
        invariant |rs| == |hs| <= n
        invariant forall k: nat | k < |hs| :: rs[k] == [hs[k]] && fresh(hs[k]) && Ring(rs[k]) && hs[k].item == blank
        invariant forall a: nat, b: nat | a < b < |hs| :: hs[a] != hs[b]
      {
        var h := new Node(blank);
        Init(h);
        hs := hs + [h];
        rs := rs + [[h]];
      }
      heads, rings := hs, rs;
    }

    ghost predicate RingOk(k: nat)
      requires k < |rings| == |heads|
      reads this, rings[k]
    {
      Ring(rings[k]) && rings[k][0] == heads[k]
    }

    ghost predicate Valid()
      reads this, Repr()
    {
      && |rings| == |heads| && AllApart(rings)
      && (forall k: nat {:trigger RingOk(k)} | k < |rings| :: RingOk(k))
    }

    /** The ring of one list was changed; the others were not. */
    ghost method SetRing(k: nat, ring: seq<Node<T>>)
      requires |rings| == |heads| && AllApart(rings) && k < |rings|
      requires forall x | x in ring :: x in rings[k] || forall b: nat | b < |rings| :: x !in rings[b]
      requires Ring(ring) && ring[0] == heads[k]
      requires forall b: nat {:trigger RingOk(b)} | b < |rings| && b != k :: RingOk(b)
      modifies this
      ensures Valid() && rings == old(rings)[k := ring]
    {
      StillApart(rings, k, ring);
      rings := rings[k := ring];
      forall b: nat | b < |rings| ensures RingOk(b) {
        assert b != k ==> old(RingOk(b));
      }
    }

    method Push(k: nat, node: Node<T>)
      requires Valid() && k < |heads| && node !in Repr()
      modifies this, Repr(), node
      ensures Valid() && rings == old(rings)[k := [heads[k]] + ([node] + old(Queue(k)))]
      ensures Members() == old(Members()) + {node} && Repr() == old(Repr()) + {node}
    {
      ReprIsMembersAndHeads();
      ghost var q := Queue(k);
      assert RingOk(k) && [heads[k]] + q == rings[k];
      MembersPush(rings, k, node);
      PushHead(heads[k], node, q);
      ghost var ring := [heads[k]] + ([node] + q);
      assert ring == rings[k][..1] + ([node] + q);
      forall b: nat | b < |rings| && b != k ensures RingOk(b) {
        assert old(RingOk(b));
        assert Apart(rings, b, k);
      }
      SetRing(k, ring);
      ReprIsMembersAndHeads();
    }

    /** A node is in one place only. */
    lemma Alone(k: nat, i: nat)
      requires Valid() && k < |rings| && i < |rings[k]|
      ensures forall b: nat, j: nat | b < |rings| && j < |rings[b]| && (b != k || j != i) :: rings[b][j] != rings[k][i]
    {
      assert RingOk(k);
      RingDistinct(rings[k]);
      forall b: nat, j: nat | b < |rings| && j < |rings[b]| && (b != k || j != i) ensures rings[b][j] != rings[k][i] {
        assert Apart(rings, b, k);
      }
    }

    method IsEmpty(k: nat) returns (b: bool)
      requires Valid() && k < |heads|
      ensures b <==> Queue(k) == []
    {
      assert RingOk(k);
      b := Empty(heads[k], rings[k]);
    }

    /** list_next of the terminator */
    method Head(k: nat) returns (node: Node<T>)
      requires Valid() && k < |heads| && Queue(k) != []
      ensures node == Queue(k)[0]
    {
      assert RingOk(k);
      assert Linked(rings[k], 0);
      node := heads[k].next;
    }

    method Pop(k: nat) returns (node: Node<T>)
      requires Valid() && k < |heads| && Queue(k) != []
      modifies this, Repr()
      ensures Valid() && rings == old(rings)[k := [heads[k]] + old(Queue(k))[1..]]
      ensures node == old(Queue(k))[0] && node !in Repr() && Members() == old(Members()) - {node}
              && Repr() == old(Repr()) - {node}
      ensures node in old(Members())
    {
      ReprIsMembersAndHeads();
      ghost var q := Queue(k);
      assert RingOk(k) && [heads[k]] + q == rings[k];
      Alone(k, 1);
      MembersErase(rings, k, 1);
      node := PopHead(heads[k], q);
      forall b: nat | b < |rings| && b != k ensures RingOk(b) {
        assert old(RingOk(b));
        assert Apart(rings, b, k);
      }
      assert [heads[k]] + q[1..] == rings[k][..1] + rings[k][2..];
      SetRing(k, [heads[k]] + q[1..]);
      ReprIsMembersAndHeads();
    }

    /** The node leaves the list it is in. */
    method Erase(node: Node<T>, ghost k: nat, ghost i: nat)
      requires Valid() && k < |heads| && 0 < i < |rings[k]| && rings[k][i] == node
      modifies this, Repr()
      ensures Valid() && rings == old(rings)[k := old(rings)[k][..i] + old(rings)[k][i + 1..]]
      ensures node !in Repr() && Members() == old(Members()) - {node} && Repr() == old(Repr()) - {node}
      ensures node in old(Members())
    {
      ReprIsMembersAndHeads();
      assert RingOk(k);
      Alone(k, i);
      MembersErase(rings, k, i);
      LinksInside(rings[k], i);
      IntrusiveList.Erase(node, rings[k], i);
      forall b: nat | b < |rings| && b != k ensures RingOk(b) {
        assert old(RingOk(b));
        assert Apart(rings, b, k);
      }
      SetRing(k, rings[k][..i] + rings[k][i + 1..]);
      ReprIsMembersAndHeads();
    }
  }
}
