/** Which of several numbered containers holds what. */
module Owners {

  /** What container id holds. */
  ghost function KeysOf<T>(owner: map<T, nat>, id: nat): (s: set<T>)
    ensures s <= owner.Keys
  {
    set a | a in owner && owner[a] == id
  }

  /** Something new changes what one container holds, and the number of all things held. */
  lemma KeysOfInsert<T>(owner: map<T, nat>, a: T, id: nat)
    requires a !in owner
    ensures forall i: nat :: KeysOf(owner[a := id], i) == KeysOf(owner, i) + if i == id then {a} else {}
    ensures |owner[a := id]| == |owner| + 1
  {
  }

  lemma KeysOfRemove<T>(owner: map<T, nat>, a: T)
    requires a in owner
    ensures forall i: nat :: KeysOf(owner - {a}, i) == KeysOf(owner, i) - if i == owner[a] then {a} else {}
    ensures |owner - {a}| == |owner| - 1
  {
    assert owner == (owner - {a})[a := owner[a]];
  }
}
