/** Generic list helpers: `indexOf`, duplicate removal through a `Set`, and
    the library's `arrayRemove` / `rAE`. */
module Lists {

  /** No value occurs twice. */
  predicate NoDup<T(==)>(s: seq<T>) {
    forall i, j :: 0 <= i < j < |s| ==> s[i] != s[j]
  }

  /** `Array.prototype.indexOf`: the first position holding `x`, or -1. */
  function IndexOf<T(==)>(s: seq<T>, x: T): (i: int)
    ensures -1 <= i < |s|
    ensures i >= 0 <==> x in s
    ensures i >= 0 ==> s[i] == x && x !in s[..i]
  {
    if |s| == 0 then -1
    else if s[0] == x then 0
    else
      var k := IndexOf(s[1..], x);
      assert k >= 0 ==> s[..k + 1] == [s[0]] + s[1..][..k];
      assert x in s <==> x in s[1..] by { assert s == [s[0]] + s[1..]; }
      if k < 0 then -1 else k + 1
  }

  /** The first occurrence is the only position that can be reported. */
  lemma {:induction false} IndexOfIs<T>(s: seq<T>, x: T, i: nat)
    requires i < |s| && s[i] == x && x !in s[..i]
    ensures IndexOf(s, x) == i
    decreases i
  {
    if i > 0 {
      assert s[..i][0] == s[0];
      assert s[1..][..i - 1] == s[1..i] && s[..i] == [s[0]] + s[1..i];
      IndexOfIs(s[1..], x, i - 1);
    }
  }

  /** `Array.from(new Set(s))`: every value once, in order of first occurrence. */
  function Dedup<T(==)>(s: seq<T>): (r: seq<T>)
    ensures NoDup(r)
    ensures forall i :: 0 <= i < |r| ==> r[i] in s
    ensures forall i :: 0 <= i < |s| ==> s[i] in r
    ensures |r| <= |s|
  {
    if |s| == 0 then []
    else
      var p := s[..|s| - 1];
      var r := Dedup(p);
      assert s == p + [s[|s| - 1]];
      if s[|s| - 1] in r then r else r + [s[|s| - 1]]
  }

  /** The values of `Dedup(s)` appear in the order of their first occurrence in `s`. */
  lemma {:induction false} DedupOrder<T>(s: seq<T>)
    ensures forall i, j :: 0 <= i < j < |Dedup(s)| ==> IndexOf(s, Dedup(s)[i]) < IndexOf(s, Dedup(s)[j])
    decreases |s|
  {
    if |s| > 0 {
      var p := s[..|s| - 1];
      var y := s[|s| - 1];
      DedupOrder(p);
      var r := Dedup(p);
      forall x | x in p ensures IndexOf(s, x) == IndexOf(p, x) {
        IndexOfInPrefix(s, x);
      }
      if y !in r {
        assert s[..|s| - 1] == p;
        IndexOfIs(s, y, |s| - 1);
        var d := Dedup(s);
        assert d == r + [y];
        forall i, j | 0 <= i < j < |d| ensures IndexOf(s, d[i]) < IndexOf(s, d[j]) {
          assert d[i] == r[i] && d[i] in p;
          if j < |r| {
            assert d[j] == r[j] && d[j] in p;
          }
        }
      }
    }
  }

  /** A value met before the last position is first found where the prefix finds it. */
  lemma IndexOfInPrefix<T>(s: seq<T>, x: T)
    requires |s| > 0 && x in s[..|s| - 1]
    ensures IndexOf(s, x) == IndexOf(s[..|s| - 1], x)
  {
    var p := s[..|s| - 1];
    var k := IndexOf(p, x);
    assert s[..k] == p[..k];
    IndexOfIs(s, x, k);
  }

  /** A list without duplicates is left as it is. */
  lemma {:induction false} DedupNoDup<T>(s: seq<T>)
    requires NoDup(s)
    ensures Dedup(s) == s
    decreases |s|
  {
    if |s| > 0 {
      var p := s[..|s| - 1];
      assert NoDup(p);
      DedupNoDup(p);
      assert s[|s| - 1] !in p;
      assert s == p + [s[|s| - 1]];
    }
  }

  /** `arrayRemove(arr, val)` / `rAE(arr, v)`: splice out the element at
      `arr.indexOf(val)` when there is one. The array is changed in place and
      returned; here the result is its new contents. */
  function ArrayRemove<T(==)>(arr: seq<T>, v: T): (r: seq<T>)
    ensures v !in arr ==> r == arr
    ensures v in arr ==> |r| == |arr| - 1
  {
    var i := IndexOf(arr, v);
    if i >= 0 then arr[..i] + arr[i + 1..] else arr
  }

  /** `arrayRemove` takes exactly one copy of a present value out of the
      array and keeps everything else. */
  lemma ArrayRemoveCount<T>(arr: seq<T>, v: T)
    ensures multiset(ArrayRemove(arr, v)) == if v in arr then multiset(arr) - multiset{v} else multiset(arr)
  {
    if v in arr {
      var i := IndexOf(arr, v);
      assert arr == arr[..i] + [v] + arr[i + 1..];
    }
  }

  /** A recursive reference for removing the first occurrence. */
  function RemoveFirst<T(==)>(s: seq<T>, v: T): seq<T> {
    if |s| == 0 then []
    else if s[0] == v then s[1..]
    else [s[0]] + RemoveFirst(s[1..], v)
  }

  /** `arrayRemove` removes the first occurrence and only it. */
  lemma {:induction false} ArrayRemoveFirst<T>(arr: seq<T>, v: T)
    ensures ArrayRemove(arr, v) == RemoveFirst(arr, v)
    decreases |arr|
  {
    if |arr| > 0 && arr[0] != v {
      var t := arr[1..];
      ArrayRemoveFirst(t, v);
      ArrayRemoveTail(arr, v);
    }
  }

  /** Past a first element other than `v`, removal happens in the tail. */
  lemma ArrayRemoveTail<T>(arr: seq<T>, v: T)
    requires |arr| > 0 && arr[0] != v
    ensures ArrayRemove(arr, v) == [arr[0]] + ArrayRemove(arr[1..], v)
  {
    var t := arr[1..];
    var k := IndexOf(t, v);
    assert IndexOf(arr, v) == if k < 0 then -1 else k + 1;
    if k >= 0 {
      assert arr[..k + 1] == [arr[0]] + t[..k];
      assert arr[k + 2..] == t[k + 1..];
    } else {
      assert arr == [arr[0]] + t;
    }
  }

  /** Putting the removed value back at `indexOf` restores the array. */
  lemma ArrayRemoveRestore<T>(arr: seq<T>, v: T)
    requires v in arr
    ensures var i := IndexOf(arr, v);
            arr == ArrayRemove(arr, v)[..i] + [v] + ArrayRemove(arr, v)[i..]
  {
    var i := IndexOf(arr, v);
    var r := ArrayRemove(arr, v);
    assert r[..i] == arr[..i];
    assert r[i..] == arr[i + 1..];
    assert arr == arr[..i] + [v] + arr[i + 1..];
  }
}
