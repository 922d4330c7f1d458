/** The in-memory list transforms every route handler performs between
    reading a JSON document and writing it back: find the first record with
    a key (`Array.prototype.find` / `findIndex`), drop every record with a
    key (`Array.prototype.filter`), and update-or-append (upsert).

    Records are compared through a key function, so one definition serves
    progress records (keyed by student ID), certificate entries (keyed by
    the pair of student ID and certificate number) and bare student IDs
    (keyed by themselves). Key comparison is JavaScript's `===` on strings,
    which is Dafny's `==`. */
module Collections {
  import opened Basics

  /** The key function of a list of bare values. */
  function Itself<T>(x: T): T {
    x
  }

  /** Some element of `xs` has key `k`. */
  predicate HasKey<T, K(==)>(xs: seq<T>, key: T -> K, k: K) {
    exists i :: 0 <= i < |xs| && key(xs[i]) == k
  }

  /** `i` is the position of the first element of `xs` with key `k`. */
  predicate IsFirstWithKey<T, K(==)>(xs: seq<T>, key: T -> K, k: K, i: int) {
    0 <= i < |xs| && key(xs[i]) == k && forall j :: 0 <= j < i ==> key(xs[j]) != k
  }

  /** No two elements of `xs` share a key. */
  predicate UniqueKeys<T, K(==)>(xs: seq<T>, key: T -> K) {
    forall i, j :: 0 <= i < j < |xs| ==> key(xs[i]) != key(xs[j])
  }

  /** `findIndex` with a key-equality callback: the first position whose
      element has key `k`, or nothing when no element has it. */
  function IndexOfKey<T, K(==)>(xs: seq<T>, key: T -> K, k: K): (r: Option<nat>)
    ensures r.Some? ==> IsFirstWithKey(xs, key, k, r.value)
    ensures r.None? <==> !HasKey(xs, key, k)
  {
    if |xs| == 0 then None
    else if key(xs[0]) == k then Some(0)
    else match IndexOfKey(xs[1..], key, k)
      case None =>
        assert forall i :: 1 <= i < |xs| ==> xs[i] == xs[1..][i - 1];
        None
      case Some(i) =>
        assert forall j :: 1 <= j <= i ==> xs[j] == xs[1..][j - 1];
        Some(i + 1)
  }

  /** `filter` with the callback "key differs from `k`": every element with
      key `k` is dropped, every other element is kept as often as it
      occurred, and the length stays the same exactly when nothing had the
      key, in which case the list is returned unchanged. */
  function RemoveKey<T(==,!new), K(==)>(xs: seq<T>, key: T -> K, k: K): (r: seq<T>)
    ensures forall x :: multiset(r)[x] == if key(x) == k then 0 else multiset(xs)[x]
    ensures |r| <= |xs|
    ensures |r| == |xs| <==> !HasKey(xs, key, k)
    ensures !HasKey(xs, key, k) ==> r == xs
  {
    if |xs| == 0 then []
    else
      var rest := RemoveKey(xs[1..], key, k);
      assert xs == [xs[0]] + xs[1..];
      assert HasKey(xs, key, k) <==> key(xs[0]) == k || HasKey(xs[1..], key, k) by {
        HasKeyCons(xs, key, k);
      }
      if key(xs[0]) == k then rest else [xs[0]] + rest
  }

  /** A non-empty list has a key exactly when its head or its tail has it. */
  lemma HasKeyCons<T, K>(xs: seq<T>, key: T -> K, k: K)
    requires |xs| > 0
    ensures HasKey(xs, key, k) <==> key(xs[0]) == k || HasKey(xs[1..], key, k)
  {
  }

  /** An element survives `RemoveKey` exactly when it was in the list and
      does not carry the removed key. */
  lemma RemoveKeyMembership<T(!new), K>(xs: seq<T>, key: T -> K, k: K, x: T)
    ensures x in RemoveKey(xs, key, k) <==> x in xs && key(x) != k
  {
  }

  /** `filter` works piece by piece and keeps the order of what it keeps:
      filtering a concatenation is concatenating the filtered parts.
      Together with the contract of `RemoveKey` on one-element lists, this
      fixes the result completely: the kept elements, in their original
      order. */
  lemma {:induction false} RemoveKeyAppend<T(!new), K>(xs: seq<T>, ys: seq<T>, key: T -> K, k: K)
    ensures RemoveKey(xs + ys, key, k) == RemoveKey(xs, key, k) + RemoveKey(ys, key, k)
  {
    if |xs| == 0 {
      assert xs + ys == ys;
    } else {
      var zs := xs + ys;
      assert zs[0] == xs[0];
      assert zs[1..] == xs[1..] + ys;
      var head := if key(xs[0]) == k then [] else [xs[0]];
      var left, right := RemoveKey(xs[1..], key, k), RemoveKey(ys, key, k);
      calc {
        RemoveKey(xs + ys, key, k);
      == { RemoveKeyCons(zs, key, k); }
        head + RemoveKey(xs[1..] + ys, key, k);
      == { RemoveKeyAppend(xs[1..], ys, key, k); }
        head + (left + right);
      == { assert head + (left + right) == (head + left) + right; }
        (head + left) + right;
      == { RemoveKeyCons(xs, key, k); }
        RemoveKey(xs, key, k) + right;
      }
    }
  }

  /** `RemoveKey` on a non-empty list: the head is kept or dropped, and the
      tail is filtered after it. */
  lemma RemoveKeyCons<T(!new), K>(xs: seq<T>, key: T -> K, k: K)
    requires |xs| > 0
    ensures RemoveKey(xs, key, k) == (if key(xs[0]) == k then [] else [xs[0]]) + RemoveKey(xs[1..], key, k)
  {
  }

  /** Upsert: when some element has key `k`, the first such element is
      replaced by `merge` of it and nothing else changes; otherwise `added`
      is appended at the end. */
  function UpsertKey<T, K(==)>(xs: seq<T>, key: T -> K, k: K, merge: T -> T, added: T): (r: seq<T>)
    ensures !HasKey(xs, key, k) ==> r == xs + [added]
    ensures HasKey(xs, key, k) ==> |r| == |xs|
    ensures forall i :: IsFirstWithKey(xs, key, k, i) ==>
              r[i] == merge(xs[i]) && forall j :: 0 <= j < |xs| && j != i ==> r[j] == xs[j]
  {
    match IndexOfKey(xs, key, k)
    case Some(i) =>
      assert forall i' :: IsFirstWithKey(xs, key, k, i') ==> i' == i;
      xs[i := merge(xs[i])]
    case None => xs + [added]
  }

  /** Prepending a value whose key no later element has keeps keys unique. */
  lemma UniqueKeysCons<T, K>(x: T, ys: seq<T>, key: T -> K)
    requires UniqueKeys(ys, key)
    requires forall y :: y in ys ==> key(y) != key(x)
    ensures UniqueKeys([x] + ys, key)
  {
  }

  /** Dropping every element with a key keeps the remaining keys unique. */
  lemma {:induction false} RemoveKeyKeepsUniqueKeys<T(!new), K>(xs: seq<T>, key: T -> K, k: K)
    requires UniqueKeys(xs, key)
    ensures UniqueKeys(RemoveKey(xs, key, k), key)
  {
    if |xs| > 0 {
      var tail := xs[1..];
      assert forall i :: 0 <= i < |tail| ==> tail[i] == xs[i + 1];
      RemoveKeyKeepsUniqueKeys(tail, key, k);
      if key(xs[0]) != k {
        forall y | y in RemoveKey(tail, key, k)
          ensures key(y) != key(xs[0])
        {
          RemoveKeyMembership(tail, key, k, y);
          var j :| 0 <= j < |tail| && tail[j] == y;
          assert xs[j + 1] == y;
        }
        UniqueKeysCons(xs[0], RemoveKey(tail, key, k), key);
      }
    }
  }

  /** An upsert whose merge keeps key `k`, starting from a list with unique
      keys, yields a list with unique keys that holds key `k`, and grows by
      at most one element. */
  lemma UpsertKeyKeepsUniqueKeys<T, K>(xs: seq<T>, key: T -> K, k: K, merge: T -> T, added: T)
    requires UniqueKeys(xs, key)
    requires key(added) == k
    requires forall x :: key(x) == k ==> key(merge(x)) == k
    ensures var r := UpsertKey(xs, key, k, merge, added);
            UniqueKeys(r, key) && HasKey(r, key, k) && |xs| <= |r| <= |xs| + 1
  {
    var r := UpsertKey(xs, key, k, merge, added);
    match IndexOfKey(xs, key, k)
    case Some(i) =>
      assert forall j :: 0 <= j < |r| ==> key(r[j]) == key(xs[j]);
      assert key(r[i]) == k;
    case None =>
      assert r[|xs|] == added;
      assert forall j :: 0 <= j < |xs| ==> r[j] == xs[j];
  }

  /** Upserting the same key twice has the effect of upserting it once,
      provided the merge keeps key `k`, is idempotent on elements with that
      key, and leaves `added` alone. */
  lemma UpsertKeyIdempotent<T, K>(xs: seq<T>, key: T -> K, k: K, merge: T -> T, added: T)
    requires key(added) == k
    requires forall x :: key(x) == k ==> key(merge(x)) == k
    requires forall x :: key(x) == k ==> merge(merge(x)) == merge(x)
    requires merge(added) == added
    ensures var once := UpsertKey(xs, key, k, merge, added);
            UpsertKey(once, key, k, merge, added) == once
  {
    var once := UpsertKey(xs, key, k, merge, added);
    var i: int;
    match IndexOfKey(xs, key, k) {
      case Some(i0) =>
        i := i0;
        assert forall j :: 0 <= j < |once| ==> key(once[j]) == key(xs[j]);
      case None =>
        i := |xs|;
        assert forall j :: 0 <= j < |xs| ==> once[j] == xs[j];
    }
    assert IsFirstWithKey(once, key, k, i);
    var twice := UpsertKey(once, key, k, merge, added);
    assert twice[i] == merge(once[i]) == once[i];
    assert forall j :: 0 <= j < |once| && j != i ==> twice[j] == once[j];
  }
}
