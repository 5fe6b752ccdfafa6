/**
 * Sequence operations that the handlers of the web application use on the
 * lists they load: Python's `list.remove` (first occurrence only),
 * `reversed`, `list.pop(i)`, and the "no duplicates" property that the
 * membership lists keep.
 */
module Seqs {

  /** No element occurs twice in s. */
  predicate NoDup<T(==)>(s: seq<T>) {
    forall i, j :: 0 <= i < j < |s| ==> s[i] != s[j]
  }

  /** Position of the first occurrence of x in s. */
  function FirstIndex<T(==)>(s: seq<T>, x: T): (k: nat)
    requires x in s
    ensures k < |s| && s[k] == x && x !in s[..k]
  {
    if s[0] == x then 0 else 1 + FirstIndex(s[1..], x)
  }

  /** s without its element at position k (Python's `list.pop(k)`). */
  function RemoveAt<T>(s: seq<T>, k: nat): (r: seq<T>)
    requires k < |s|
    ensures |r| == |s| - 1
    ensures forall j :: 0 <= j < k ==> r[j] == s[j]
    ensures forall j :: k <= j < |r| ==> r[j] == s[j + 1]
  {
    s[..k] + s[k + 1..]
  }

  /**
   * Python's `list.remove(x)`: drops the FIRST occurrence of x and keeps the
   * order of everything else. Python raises when x is absent; every caller
   * checks membership first, so the absent case is the identity here.
   */
  function RemoveFirst<T(==)>(s: seq<T>, x: T): (r: seq<T>)
    ensures x !in s ==> r == s
    ensures x in s ==> r == RemoveAt(s, FirstIndex(s, x))
  {
    if s == [] then []
    else if s[0] == x then s[1..]
    else
      var tail := RemoveFirst(s[1..], x);
      assert x in s ==> [s[0]] + tail == RemoveAt(s, FirstIndex(s, x)) by {
        if x in s {
          var k := FirstIndex(s[1..], x);
          assert FirstIndex(s, x) == k + 1;
          assert [s[0]] + RemoveAt(s[1..], k) == RemoveAt(s, k + 1);
        }
      }
      [s[0]] + tail
  }

  /** Removing one occurrence of x takes exactly one x out of the multiset. */
  lemma {:induction false} RemoveFirstMultiset<T>(s: seq<T>, x: T)
    ensures multiset(RemoveFirst(s, x)) == multiset(s) - multiset{x}
  {
    if s == [] {
    } else if s[0] == x {
      assert s == [s[0]] + s[1..];
    } else {
      RemoveFirstMultiset(s[1..], x);
      assert s == [s[0]] + s[1..];
    }
  }

  /**
   * On a duplicate-free list, `remove` takes x out completely, keeps every
   * other element and keeps the list duplicate-free.
   */
  lemma {:induction false} RemoveFirstNoDup<T>(s: seq<T>, x: T)
    requires NoDup(s)
    ensures NoDup(RemoveFirst(s, x))
    ensures x !in RemoveFirst(s, x)
    ensures forall y :: y in RemoveFirst(s, x) <==> y in s && y != x
  {
    if x in s {
      var k := FirstIndex(s, x);
      var r := RemoveFirst(s, x);
      assert r == RemoveAt(s, k);
      forall i, j | 0 <= i < j < |r| ensures r[i] != r[j] {
        var i', j' := if i < k then i else i + 1, if j < k then j else j + 1;
        assert r[i] == s[i'] && r[j] == s[j'];
      }
      forall j | 0 <= j < |r| ensures r[j] != x {
        var j' := if j < k then j else j + 1;
        assert r[j] == s[j'] && s[k] == x;
      }
      forall y | y in s && y != x ensures y in r {
        var m :| 0 <= m < |s| && s[m] == y;
        if m < k {
          assert r[m] == y;
        } else {
          assert r[m - 1] == y;
        }
      }
    }
  }

  /** Python's `list(reversed(s))`, characterised position by position. */
  function Reverse<T>(s: seq<T>): (r: seq<T>)
    ensures |r| == |s|
    ensures forall k :: 0 <= k < |s| ==> r[k] == s[|s| - 1 - k]
  {
    seq(|s|, k requires 0 <= k < |s| => s[|s| - 1 - k])
  }

  /** Reversing twice gives back the original order. */
  lemma ReverseReverse<T>(s: seq<T>)
    ensures Reverse(Reverse(s)) == s
  {
    var r := Reverse(Reverse(s));
    assert forall k :: 0 <= k < |s| ==> r[k] == s[k];
  }

  /**
   * Popping storage position j from a list removes display position
   * |s| - 1 - j from its reversed view; the rest of the view keeps its order.
   */
  lemma ReverseRemoveAt<T>(s: seq<T>, j: nat)
    requires j < |s|
    ensures Reverse(RemoveAt(s, j)) == RemoveAt(Reverse(s), |s| - 1 - j)
  {
    var n := |s|;
    var t := RemoveAt(s, j);
    var rs := Reverse(s);
    var a := Reverse(t);
    var b := RemoveAt(rs, n - 1 - j);
    forall k | 0 <= k < n - 1 ensures a[k] == b[k] {
      if k < n - 1 - j {
        calc {
          a[k];
          t[n - 2 - k];
          s[n - 1 - k];
          rs[k];
        }
      } else {
        calc {
          a[k];
          t[n - 2 - k];
          s[n - 2 - k];
          rs[k + 1];
        }
      }
    }
  }

  /** Overwriting storage position |s| - 1 - i overwrites display position i of the reversed view. */
  lemma ReverseUpdate<T>(s: seq<T>, i: nat, x: T)
    requires i < |s|
    ensures Reverse(s[|s| - 1 - i := x]) == Reverse(s)[i := x]
  {
    var a, b := Reverse(s[|s| - 1 - i := x]), Reverse(s)[i := x];
    forall k | 0 <= k < |s| ensures a[k] == b[k] {
      assert a[k] == s[|s| - 1 - i := x][|s| - 1 - k];
    }
  }
}
