/** Index lists sorted by a numeric key, as the archive code uses them to order records without moving them. */
module IndexOrder {

  /** `order` lists every index of `keys` except `skip` exactly once, by non-decreasing key. */
  ghost predicate IsOrder(keys: seq<nat>, order: seq<nat>, skip: nat) {
    && (forall p | 0 <= p < |order| :: order[p] < |keys| && order[p] != skip)
    && (forall i: nat | i < |keys| && i != skip :: i in order)
    && (forall p, q | 0 <= p < q < |order| :: order[p] != order[q])
    && Sorted(keys, order)
  }

  ghost predicate Sorted(keys: seq<nat>, order: seq<nat>) {
    && (forall p | 0 <= p < |order| :: order[p] < |keys|)
    && forall p, q | 0 <= p < q < |order| :: keys[order[p]] <= keys[order[q]]
  }

  ghost predicate StrictlySorted(keys: seq<nat>, order: seq<nat>) {
    && (forall p | 0 <= p < |order| :: order[p] < |keys|)
    && forall p, q | 0 <= p < q < |order| :: keys[order[p]] < keys[order[q]]
  }

  lemma PlaceOf(keys: seq<nat>, order: seq<nat>, skip: nat, i: nat) returns (p: nat)
    requires IsOrder(keys, order, skip) && i < |keys| && i != skip
    ensures p < |order| && order[p] == i
  {
    assert i in order;
    p :| 0 <= p < |order| && order[p] == i;
  }

  /** Where `index` goes: behind every entry whose key is not larger. */
  method InsertionPoint(keys: seq<nat>, order: seq<nat>, index: nat) returns (at: nat)
    requires index < |keys| && Sorted(keys, order)
    ensures at <= |order|
    ensures forall p | 0 <= p < at :: keys[order[p]] <= keys[index]
    ensures forall p | at <= p < |order| :: keys[index] <= keys[order[p]]
  {
    at := |order|;
    while at > 0 && keys[order[at - 1]] > keys[index]
      invariant at <= |order|
      invariant forall p | at <= p < |order| :: keys[index] <= keys[order[p]]
    {
      at := at - 1;
    }
  }

  lemma InsertKeepsOrder(keys: seq<nat>, order: seq<nat>, skip: nat, n: nat, at: nat)
    requires n < |keys| && n != skip && at <= |order|
    requires IsOrder(keys[..n], order, skip)
    requires forall p | 0 <= p < at :: keys[order[p]] <= keys[n]
    requires forall p | at <= p < |order| :: keys[n] <= keys[order[p]]
    ensures IsOrder(keys[..n + 1], order[..at] + [n] + order[at..], skip)
  {
    var longer := order[..at] + [n] + order[at..];
    forall i: nat | i < n + 1 && i != skip ensures i in longer {
      if i == n {
        assert longer[at] == n;
      } else {
        var p := PlaceOf(keys[..n], order, skip, i);
        assert longer[if p < at then p else p + 1] == i;
      }
    }
    InsertKeepsSorted(keys[..n], keys[..n + 1], order, at);
  }

  lemma InsertKeepsSorted(keys: seq<nat>, more: seq<nat>, order: seq<nat>, at: nat)
    requires at <= |order| && |more| == |keys| + 1 && more[..|keys|] == keys && Sorted(keys, order)
    requires forall p | 0 <= p < at :: more[order[p]] <= more[|keys|]
    requires forall p | at <= p < |order| :: more[|keys|] <= more[order[p]]
    ensures Sorted(more, order[..at] + [|keys|] + order[at..])
  {
    var longer := order[..at] + [|keys|] + order[at..];
    forall p, q | 0 <= p < q < |longer| ensures more[longer[p]] <= more[longer[q]] {
      var a, b := if p < at then p else p - 1, if q < at then q else q - 1;
      if p != at && q != at {
        assert longer[p] == order[a] && longer[q] == order[b];
        assert keys[order[a]] <= keys[order[b]];
      }
    }
  }

  /** Sorts indices by key. Equal keys may come out in any order: callers rely on nothing else. */
  method SortByKey(keys: seq<nat>, skip: nat) returns (order: seq<nat>)
    ensures IsOrder(keys, order, skip)
  {
    order := [];
    var n := 0;
    while n < |keys|
      invariant n <= |keys|
      invariant IsOrder(keys[..n], order, skip)
    {
      if n != skip {
        var at := InsertionPoint(keys[..n + 1], order, n);
        InsertKeepsOrder(keys, order, skip, n, at);
        order := order[..at] + [n] + order[at..];
      }
      n := n + 1;
    }
    assert keys[..n] == keys;
  }

  /** Two strictly sorted lists of the same indices are the same list. */
  lemma {:induction false} StrictOrderIsUnique(keys: seq<nat>, a: seq<nat>, b: seq<nat>)
    requires StrictlySorted(keys, a) && StrictlySorted(keys, b)
    requires forall i :: i in a <==> i in b
    ensures a == b
    decreases |a|
  {
    assert a != [] ==> a[0] in a;
    assert b != [] ==> b[0] in b;
    if a != [] && b != [] {
      assert a[|a| - 1] in b;
      assert b[|b| - 1] in a;
      var a', b' := a[..|a| - 1], b[..|b| - 1];
      assert a[|a| - 1] == b[|b| - 1];
      forall i ensures i in a' <==> i in b' {
        assert i in a <==> i in b;
      }
      StrictOrderIsUnique(keys, a', b');
    }
  }

  /** The indices below `n` except `skip`, in increasing order. */
  function AllBut(n: nat, skip: nat): seq<nat> {
    if n == 0 then [] else if n - 1 == skip then AllBut(n - 1, skip) else AllBut(n - 1, skip) + [n - 1]
  }

  lemma {:induction false} AllButAt(n: nat, skip: nat)
    ensures |AllBut(n, skip)| == if skip < n then n - 1 else n
    ensures forall p | 0 <= p < |AllBut(n, skip)| :: AllBut(n, skip)[p] == if p < skip then p else p + 1
  {
    if n > 0 {
      AllButAt(n - 1, skip);
    }
  }

  lemma AllButMembers(n: nat, skip: nat)
    ensures forall i: nat :: i in AllBut(n, skip) <==> i < n && i != skip
  {
    AllButAt(n, skip);
    forall i: nat | i < n && i != skip ensures i in AllBut(n, skip) {
      assert AllBut(n, skip)[if i < skip then i else i - 1] == i;
    }
  }

  /** With strictly increasing keys there is only one order: the indices themselves. */
  lemma OrderOfIncreasingKeys(keys: seq<nat>, order: seq<nat>, skip: nat)
    requires forall i, j | 0 <= i < j < |keys| :: keys[i] < keys[j]
    requires IsOrder(keys, order, skip)
    ensures order == AllBut(|keys|, skip)
  {
    AllButMembers(|keys|, skip);
    AllButAt(|keys|, skip);
    var all := AllBut(|keys|, skip);
    assert forall p | 0 <= p < |all| :: all[p] in all;
    assert forall p | 0 <= p < |order| :: order[p] in order;
    assert StrictlySorted(keys, order) by {
      forall p, q | 0 <= p < q < |order| ensures keys[order[p]] < keys[order[q]] {
        assert order[p] != order[q] && keys[order[p]] <= keys[order[q]];
      }
    }
    StrictOrderIsUnique(keys, order, all);
  }
}
