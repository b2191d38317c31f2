/** The order of text by its encoded bytes, and searching in a sorted list. A `char` here stands for one byte. */
module TextOrder {
  import opened Wrappers

  predicate Before(a: string, b: string) {
    b != "" && (a == "" || a[0] < b[0] || (a[0] == b[0] && Before(a[1..], b[1..])))
  }

  lemma {:induction false} BeforeIsIrreflexive(a: string)
    ensures !Before(a, a)
  {
    if a != "" { BeforeIsIrreflexive(a[1..]); }
  }

  lemma {:induction false} BeforeIsTransitive(a: string, b: string, c: string)
    requires Before(a, b) && Before(b, c)
    ensures Before(a, c)
  {
    if a != "" && a[0] == b[0] == c[0] { BeforeIsTransitive(a[1..], b[1..], c[1..]); }
  }

  lemma {:induction false} BeforeIsTotal(a: string, b: string)
    ensures a == b || Before(a, b) || Before(b, a)
  {
    if a != "" && b != "" && a[0] == b[0] {
      BeforeIsTotal(a[1..], b[1..]);
      assert a == [a[0]] + a[1..] && b == [b[0]] + b[1..];
    }
  }

  /** The first difference decides, and a proper beginning comes first. */
  lemma {:induction false} BeforeExactly(a: string, b: string)
    ensures Before(a, b) <==> exists i :: 0 <= i <= |a| && i < |b| && a[..i] == b[..i] && (i < |a| ==> a[i] < b[i])
  {
    if a == "" || b == "" || a[0] != b[0] {
      assert a[..0] == b[..0];
    } else {
      BeforeExactly(a[1..], b[1..]);
      if i :| 0 <= i <= |a| && i < |b| && a[..i] == b[..i] && (i < |a| ==> a[i] < b[i]) {
        assert i > 0 && a[1..][..i - 1] == a[..i][1..] && b[1..][..i - 1] == b[..i][1..];
      }
      if k :| 0 <= k <= |a[1..]| && k < |b[1..]| && a[1..][..k] == b[1..][..k] && (k < |a[1..]| ==> a[1..][k] < b[1..][k]) {
        assert a[..k + 1] == [a[0]] + a[1..][..k] && b[..k + 1] == [b[0]] + b[1..][..k];
      }
    }
  }

  predicate Increasing(s: seq<string>) {
    forall i, j | 0 <= i < j < |s| :: Before(s[i], s[j])
  }

  /** `at` is where `key` belongs in `s`. */
  predicate Splits(s: seq<string>, key: string, at: nat) {
    && at <= |s|
    && (forall i | 0 <= i < at :: Before(s[i], key))
    && (forall i | at <= i < |s| :: Before(key, s[i]))
  }

  /** Binary search: the place of `key`, or where it would have to be inserted. */
  function BinarySearch(s: seq<string>, key: string): (r: Result<nat, nat>)
    requires Increasing(s)
    ensures r.Success? ==> r.value < |s| && s[r.value] == key
    ensures r.Failure? ==> Splits(s, key, r.error) && key !in s
  {
    FindBetween(s, key, 0, |s|)
  }

  function FindBetween(s: seq<string>, key: string, lo: nat, hi: nat): (r: Result<nat, nat>)
    requires Increasing(s) && lo <= hi <= |s|
    requires forall i | 0 <= i < lo :: Before(s[i], key)
    requires forall i | hi <= i < |s| :: Before(key, s[i])
    ensures r.Success? ==> r.value < |s| && s[r.value] == key
    ensures r.Failure? ==> Splits(s, key, r.error) && key !in s
    decreases hi - lo
  {
    if lo == hi then
      SplitMeansAbsent(s, key, lo);
      Failure(lo)
    else
      var mid := lo + (hi - lo) / 2;
      if s[mid] == key then Success(mid)
      else if Before(s[mid], key) then
        EverythingBelow(s, key, mid);
        FindBetween(s, key, mid + 1, hi)
      else
        BeforeIsTotal(s[mid], key);
        EverythingAbove(s, key, mid);
        FindBetween(s, key, lo, mid)
  }

  lemma SplitMeansAbsent(s: seq<string>, key: string, at: nat)
    requires Splits(s, key, at)
    ensures key !in s
  {
    BeforeIsIrreflexive(key);
  }

  lemma EverythingBelow(s: seq<string>, key: string, mid: nat)
    requires Increasing(s) && mid < |s| && Before(s[mid], key)
    ensures forall i | 0 <= i <= mid :: Before(s[i], key)
  {
    forall i | 0 <= i < mid ensures Before(s[i], key) {
      BeforeIsTransitive(s[i], s[mid], key);
    }
  }

  lemma EverythingAbove(s: seq<string>, key: string, mid: nat)
    requires Increasing(s) && mid < |s| && Before(key, s[mid])
    ensures forall i | mid <= i < |s| :: Before(key, s[i])
  {
    forall i | mid < i < |s| ensures Before(key, s[i]) {
      BeforeIsTransitive(key, s[mid], s[i]);
    }
  }

  lemma InsertKeepsIncreasing(s: seq<string>, key: string, at: nat)
    requires Increasing(s) && Splits(s, key, at)
    ensures Increasing(s[..at] + [key] + s[at..])
  {
  }

  /** A list in strictly increasing order has no key twice. */
  lemma IncreasingIsDistinct(s: seq<string>, i: nat, j: nat)
    requires Increasing(s) && i < |s| && j < |s| && s[i] == s[j]
    ensures i == j
  {
    BeforeIsIrreflexive(s[i]);
  }
}
