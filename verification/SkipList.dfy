/** The push-snatch list of atomic.hpp: a singly linked list whose nodes also hint at a node further on. The links of
    all nodes are kept in two arrays, indexed by node. */
module SkipList {
  import opened Wrappers

  type Links = seq<Option<nat>>

  function First(list: seq<nat>): Option<nat> {
    if list == [] then None else Some(list[0])
  }

  function Last(list: seq<nat>): nat
    requires list != []
  {
    list[|list| - 1]
  }

  ghost predicate Distinct(list: seq<nat>) {
    forall i, j | 0 <= i < j < |list| :: list[i] != list[j]
  }

  ghost predicate LeadsOn(next: Links, list: seq<nat>, end: Option<nat>, i: nat)
    requires i < |list|
  {
    list[i] < |next| && next[list[i]] == if i + 1 < |list| then Some(list[i + 1]) else end
  }

  /** The next links of the nodes spell the list, the last one leading to `end`. */
  ghost predicate Chain(next: Links, list: seq<nat>, end: Option<nat>) {
    && Distinct(list)
    && forall i: nat {:trigger LeadsOn(next, list, end, i)} | i < |list| :: LeadsOn(next, list, end, i)
  }

  /** Node i of the list hints at itself or at a later node of the list. */
  ghost predicate HintsAhead(skip: Links, list: seq<nat>, i: nat)
    requires i < |list|
  {
    list[i] < |skip| && exists j :: i <= j < |list| && skip[list[i]] == Some(list[j])
  }

  ghost predicate Hints(skip: Links, list: seq<nat>) {
    forall i: nat {:trigger HintsAhead(skip, list, i)} | i < |list| :: HintsAhead(skip, list, i)
  }

  /** get_skip: the node's hint, or its next node when it only hints at itself; the tail stays where it is. */
  function GetSkip(next: Links, skip: Links, node: nat): Option<nat>
    requires node < |next| && node < |skip|
  {
    if next[node].None? then Some(node) else if skip[node] != Some(node) then skip[node] else next[node]
  }

  /** From any node but the last, following the hint moves on in the list, as far as the hint leads. */
  lemma SkipMovesOn(next: Links, skip: Links, list: seq<nat>, i: nat)
    requires Chain(next, list, None) && Hints(skip, list) && i < |list|
    ensures list[i] < |next| && list[i] < |skip|
    ensures i + 1 == |list| ==> GetSkip(next, skip, list[i]) == Some(list[i])
    ensures i + 1 < |list| ==> exists j :: i < j < |list| && GetSkip(next, skip, list[i]) == Some(list[j])
    ensures i + 1 < |list| ==> GetSkip(next, skip, list[i]) == if skip[list[i]] == Some(list[i]) then Some(list[i + 1])
                                                               else skip[list[i]]
  {
    assert HintsAhead(skip, list, i);
    assert LeadsOn(next, list, None, i);
    if i + 1 < |list| {
      var j :| i <= j < |list| && skip[list[i]] == Some(list[j]);
      assert j == i ==> GetSkip(next, skip, list[i]) == Some(list[i + 1]);
      assert j > i ==> GetSkip(next, skip, list[i]) == Some(list[j]);
    }
  }

  /** How many nodes bite() takes off a list: the amount asked for, but at least one and no more than there are. */
  function Bitten(list: seq<nat>, amount: nat): nat {
    var n := if amount == 0 then 1 else amount;
    if n < |list| then n else |list|
  }

  /** A cut after n nodes takes as many as asked for, or all there are, or one if none are asked for. */
  predicate CutsAt(list: seq<nat>, amount: nat, n: nat) {
    1 <= n <= |list| && (n <= amount || n == 1) && (n < |list| ==> n >= amount)
  }

  lemma BittenSpec(list: seq<nat>, amount: nat, n: nat)
    requires list != []
    ensures CutsAt(list, amount, n) <==> n == Bitten(list, amount)
  {
  }

  /** The hints after every node of the part was made to point at its tail. */
  function PointAt(skip: Links, part: seq<nat>, tail: nat): (r: Links)
    requires forall i | 0 <= i < |part| :: part[i] < |skip|
    ensures |r| == |skip|
    ensures forall x | 0 <= x < |skip| :: r[x] == if x in part then Some(tail) else skip[x]
  {
    if part == [] then skip else
      var rest := part[..|part| - 1];
      assert part == rest + [Last(part)];
      PointAt(skip, rest, tail)[Last(part) := Some(tail)]
  }

  lemma InLinks(next: Links, list: seq<nat>, end: Option<nat>)
    requires Chain(next, list, end)
    ensures forall i | 0 <= i < |list| :: list[i] < |next|
  {
    forall i: nat | i < |list| ensures list[i] < |next| {
      assert LeadsOn(next, list, end, i);
    }
  }

  /** The links of a list that was cut after n nodes. */
  function CutNext(next: Links, list: seq<nat>, n: nat): Links
    requires 0 < n <= |list| && list[n - 1] < |next|
  {
    next[list[n - 1] := None]
  }

  /** Both parts of a bitten list are lists again: the nodes of the first all hint at its tail, and those of the second,
      which never hinted back, hint ahead as before. */
  lemma BiteKeeps(next: Links, skip: Links, list: seq<nat>, n: nat)
    requires Chain(next, list, None) && Hints(skip, list) && |skip| == |next| && 0 < n <= |list|
    ensures list[n - 1] < |next| && forall i | 0 <= i < n :: list[..n][i] < |skip|
    ensures var next', skip' := CutNext(next, list, n), PointAt(skip, list[..n], list[n - 1]);
            && Chain(next', list[..n], None) && Hints(skip', list[..n])
            && Chain(next', list[n..], None) && Hints(skip', list[n..])
  {
    InLinks(next, list, None);
    var part, rest := list[..n], list[n..];
    var next', skip' := CutNext(next, list, n), PointAt(skip, part, list[n - 1]);
    forall i: nat | i < n ensures LeadsOn(next', part, None, i) && HintsAhead(skip', part, i) {
      assert LeadsOn(next, list, None, i);
      assert part[n - 1] == list[n - 1] && part[i] in part;
    }
    forall i: nat | i < |rest| ensures LeadsOn(next', rest, None, i) && HintsAhead(skip', rest, i) {
      assert LeadsOn(next, list, None, n + i) && HintsAhead(skip, list, n + i);
      var j :| n + i <= j < |list| && skip[list[n + i]] == Some(list[j]);
      assert rest[j - n] == list[j];
    }
  }

  class Nodes {
    const next: array<Option<nat>>
    const skip: array<Option<nat>>

    /** A list whose last node has no next and whose hints lead ahead. */
    ghost predicate Holds(list: seq<nat>)
      reads next, skip
    {
      next.Length == skip.Length && Chain(next[..], list, None) && Hints(skip[..], list)
    }

    /** get_tail: following hints from the head ends, and ends at the last node. */
    method GetTail(head: nat, ghost list: seq<nat>) returns (tail: nat)
      requires Holds(list) && list != [] && head == list[0]
      ensures tail == Last(list)
    {
      ghost var i: nat := 0;
      tail := head;
      while true
        invariant i < |list| && tail == list[i]
        decreases |list| - i
      {
        SkipMovesOn(next[..], skip[..], list, i);
        var step := if next[tail].None? then tail
                    else if skip[tail] != Some(tail) then skip[tail].value
                    else next[tail].value;
        if step == tail {
          return;
        }
        i :| i < |list| && list[i] == step;
        tail := step;
      }
    }

    /** The walk of bite() to the last node it takes. */
    method LastBitten(head: nat, amount: nat, ghost list: seq<nat>) returns (tail: nat)
      requires Holds(list) && list != [] && head == list[0]
      ensures tail == list[Bitten(list, amount) - 1]
    {
      tail := head;
      var i := 1;
      while i < amount
        invariant 1 <= i <= |list| && (i <= amount || i == 1) && tail == list[i - 1]
      {
        assert LeadsOn(next[..], list, None, i - 1);
        if next[tail].None? {
          return;
        }
        tail := next[tail].value;
        i := i + 1;
      }
    }

    /** Points the hints of a list at one node. */
    method PointHints(head: Option<nat>, tail: nat, ghost part: seq<nat>)
      requires Chain(next[..], part, None) && head == First(part)
      requires forall i | 0 <= i < |part| :: part[i] < skip.Length
      requires next != skip
      modifies skip
      ensures skip[..] == PointAt(old(skip[..]), part, tail)
    {
      var curr := head;
      ghost var k: nat := 0;
      assert part[..0] == [];
      while curr.Some?
        invariant k <= |part| && curr == if k < |part| then Some(part[k]) else None
        invariant skip[..] == PointAt(old(skip[..]), part[..k], tail)
        decreases |part| - k
      {
        assert part[..k + 1][..k] == part[..k];
        assert LeadsOn(next[..], part, None, k);
        skip[curr.value] := Some(tail);
        curr := next[curr.value];
        k := k + 1;
      }
      assert part[..k] == part;
    }

    /** The two parts spell the first n nodes of the list and the others, and the first n all hint at the last of
        them. */
    ghost predicate Parts(list: seq<nat>, amount: nat, n: nat, part1: Option<nat>, part2: Option<nat>)
      reads next, skip
    {
      && CutsAt(list, amount, n)
      && part1 == First(list[..n]) && Holds(list[..n])
      && part2 == First(list[n..]) && Holds(list[n..])
      && forall x | x in list[..n] :: x < skip.Length && skip[x] == Some(list[n - 1])
    }

    /** bite: cuts the list after the nodes asked for, and points their hints at the new tail. */
    method Bite(head: Option<nat>, amount: nat, ghost list: seq<nat>) returns (part1: Option<nat>, part2: Option<nat>)
      requires Holds(list) && head == First(list) && next != skip
      modifies next, skip
      ensures var n := Bitten(list, amount);
              && part1 == First(list[..n]) && part2 == First(list[n..])
              && Holds(list[..n]) && Holds(list[n..])
              && (list == [] ==> next[..] == old(next[..]) && skip[..] == old(skip[..]))
              && (list != [] ==>
                    && list[n - 1] < next.Length && next[..] == CutNext(old(next[..]), list, n)
                    && (forall i | 0 <= i < n :: list[..n][i] < skip.Length)
                    && skip[..] == PointAt(old(skip[..]), list[..n], list[n - 1]))
      ensures list != [] ==> exists n: nat :: Parts(list, amount, n, part1, part2)
      ensures list == [] ==> part1 == None && part2 == None
    {
      if head.None? {
        return None, None;
      }
      ghost var n := Bitten(list, amount);
      var tail := LastBitten(head.value, amount, list);
      BiteKeeps(next[..], skip[..], list, n);
      assert LeadsOn(next[..], list, None, n - 1);
      part1 := head;
      part2 := next[tail];
      next[tail] := None;
      PointHints(part1, tail, list[..n]);
      assert Parts(list, amount, n, part1, part2);
    }
  }
}
