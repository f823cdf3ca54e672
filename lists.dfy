/**
 * The Python list operations the registry relies on: membership,
 * `list.remove` (which deletes the first occurrence) and the absence
 * of duplicates that the controller maintains.
 */
module Lists {

  /** No element occurs twice. */
  predicate NoDuplicates<T(==)>(s: seq<T>)
  {
    forall i, j :: 0 <= i < j < |s| ==> s[i] != s[j]
  }

  /** The position of the first occurrence of `x` in `s`. */
  function IndexOf<T(==)>(s: seq<T>, x: T): (k: nat)
    requires x in s
    ensures k < |s| && s[k] == x
    ensures x !in s[..k]
  {
    if s[0] == x then 0
    else
      var k := 1 + IndexOf(s[1..], x);
      assert s[..k] == [s[0]] + s[1..][..k - 1];
      k
  }

  /** `s.remove(x)` in Python: the first occurrence of `x` is deleted. */
  function RemoveFirst<T(==)>(s: seq<T>, x: T): (r: seq<T>)
    requires x in s
    ensures |r| == |s| - 1
  {
    var k := IndexOf(s, x);
    s[..k] + s[k + 1..]
  }

  /** Removing the first occurrence takes exactly one copy of `x` out of the multiset of elements. */
  lemma RemoveFirstMultiset<T>(s: seq<T>, x: T)
    requires x in s
    ensures multiset(RemoveFirst(s, x)) == multiset(s) - multiset{x}
  {
    var k := IndexOf(s, x);
    assert s == s[..k] + [x] + s[k + 1..];
    calc {
      multiset(s);
      multiset(s[..k]) + multiset{x} + multiset(s[k + 1..]);
      multiset(RemoveFirst(s, x)) + multiset{x};
    }
  }

  /** In a duplicate-free list, removing the element at position `i` deletes exactly that position. */
  lemma RemoveFirstAt<T>(s: seq<T>, i: nat)
    requires NoDuplicates(s) && i < |s|
    ensures RemoveFirst(s, s[i]) == s[..i] + s[i + 1..]
  {
    var k := IndexOf(s, s[i]);
    assert forall j :: 0 <= j < k ==> s[..k][j] == s[j];
    assert k == i;
  }

  /** Removing an element from a duplicate-free list leaves it duplicate-free, without that element and with all the others. */
  lemma RemoveFirstDistinct<T>(s: seq<T>, i: nat)
    requires NoDuplicates(s) && i < |s|
    ensures NoDuplicates(RemoveFirst(s, s[i]))
    ensures s[i] !in RemoveFirst(s, s[i])
    ensures forall y :: y in RemoveFirst(s, s[i]) <==> y in s && y != s[i]
  {
    RemoveFirstAt(s, i);
    var r := RemoveFirst(s, s[i]);
    assert forall j :: 0 <= j < |r| ==> r[j] == if j < i then s[j] else s[j + 1];
    forall y
      ensures y in r <==> y in s && y != s[i]
    {
      if y in s && y != s[i] {
        var j :| 0 <= j < |s| && s[j] == y;
        assert r[if j < i then j else j - 1] == y;
      }
    }
  }

  /** Appending an absent element keeps a list duplicate-free. */
  lemma AppendDistinct<T>(s: seq<T>, x: T)
    requires NoDuplicates(s) && x !in s
    ensures NoDuplicates(s + [x])
  {
    var t := s + [x];
    forall i, j | 0 <= i < j < |t|
      ensures t[i] != t[j]
    {
      if j == |s| {
        assert t[i] == s[i];
      }
    }
  }
}
