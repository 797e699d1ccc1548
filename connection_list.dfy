/** The list operations and the selection rule shared by the two view models
    (Serial/ViewModel.cs and Serial.WPF/MainViewModel.cs): `IndexOf`,
    `Remove`, and the choice of the connection selected after a removal. */
module ConnectionList {
  import opened Base

  /** `IList.IndexOf`: the first position of `x`, or -1. */
  function IndexOf<T(==)>(s: seq<T>, x: T): (i: int)
    ensures -1 <= i < |s|
    ensures i == -1 <==> x !in s
    ensures 0 <= i ==> s[i] == x && x !in s[..i]
  {
    if s == [] then -1
    else if s[0] == x then 0
    else
      var j := IndexOf(s[1..], x);
      assert j >= 0 ==> s[1..][..j] == s[1..j + 1];
      if j == -1 then -1 else j + 1
  }

  /** `Collection.Remove`: drops the first occurrence, if there is one. */
  function Removed<T(==)>(s: seq<T>, x: T): (r: seq<T>)
    ensures x !in s ==> r == s
    ensures x in s ==> |r| == |s| - 1
  {
    var i := IndexOf(s, x);
    if i == -1 then s else s[..i] + s[i + 1..]
  }

  /** No connection is in the list twice. */
  predicate Distinct<T(==)>(s: seq<T>) {
    forall i, j :: 0 <= i < j < |s| ==> s[i] != s[j]
  }

  /** The connection selected after the one at `index` was removed, leaving
      `after`: the one now at `index`, else the one at `max(0, index - 1)`;
      None when the list is empty, where the selection is not reassigned. */
  function Reselected<T>(after: seq<T>, index: nat): (r: Option<T>)
    requires index <= |after|
    ensures r.Some? <==> |after| > 0
    ensures r.Some? ==> r.value in after
  {
    if index < |after| then Some(after[index])
    else if |after| > 0 then Some(after[if index - 1 > 0 then index - 1 else 0])
    else None
  }

  /** The selection afterwards: the rule's choice, or the current selection
      when the rule makes none. */
  function Chosen<T>(choice: Option<T>, current: T): T {
    match choice
    case Some(c) => c
    case None => current
  }

  /** Removing `x` deletes exactly that entry and keeps the others in their
      order; a list without `x` is unchanged. */
  lemma RemovedShape<T>(s: seq<T>, x: T)
    ensures x !in s ==> Removed(s, x) == s
    ensures x in s ==> |Removed(s, x)| == |s| - 1
    ensures x in s ==> forall k :: 0 <= k < |s| - 1 ==>
      Removed(s, x)[k] == s[if k < IndexOf(s, x) then k else k + 1]
    ensures multiset(Removed(s, x)) == multiset(s) - multiset{x}
  {
    var i := IndexOf(s, x);
    if i >= 0 {
      var r := Removed(s, x);
      assert r == s[..i] + s[i + 1..];
      forall k | 0 <= k < |s| - 1 ensures r[k] == s[if k < i then k else k + 1] {
        if k < i { assert r[k] == s[..i][k]; } else { assert r[k] == s[i + 1..][k - i]; }
      }
      RemovedMultiset(s, i);
    } else {
      assert multiset(s)[x] == 0;
    }
  }

  lemma RemovedMultiset<T>(s: seq<T>, i: nat)
    requires i < |s|
    ensures multiset(s[..i] + s[i + 1..]) == multiset(s) - multiset{s[i]}
  {
    assert s == s[..i] + [s[i]] + s[i + 1..];
    assert multiset(s) == multiset(s[..i]) + multiset{s[i]} + multiset(s[i + 1..]);
  }

  /** In a list of distinct connections the removed one is gone afterwards. */
  lemma RemovedGone<T>(s: seq<T>, x: T)
    requires Distinct(s)
    ensures x !in Removed(s, x)
  {
    var i := IndexOf(s, x);
    if i >= 0 {
      var r := Removed(s, x);
      forall k | 0 <= k < |r| ensures r[k] != x {
        if k < i { assert r[k] == s[k]; } else { assert r[k] == s[k + 1]; }
      }
    }
  }

  /** The selection rule in terms of the list before the removal: the removed
      connection's right-hand neighbour, or its left-hand neighbour when it
      was the last one, or no new selection when it was the only one. The new
      selection is always in the list and is never the removed connection. */
  lemma ReselectedNeighbour<T>(before: seq<T>, x: T)
    requires x in before && Distinct(before)
    ensures IndexOf(before, x) <= |Removed(before, x)|
    ensures var i, after := IndexOf(before, x), Removed(before, x);
      && (i + 1 < |before| ==> Reselected(after, i) == Some(before[i + 1]))
      && (i + 1 == |before| && i > 0 ==> Reselected(after, i) == Some(before[i - 1]))
      && (|before| == 1 ==> Reselected(after, i) == None)
      && (Reselected(after, i).Some? ==> Reselected(after, i).value in after && Reselected(after, i).value != x)
  {
    var i, after := IndexOf(before, x), Removed(before, x);
    RemovedShape(before, x);
    RemovedGone(before, x);
  }
}
