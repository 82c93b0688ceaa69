/** Participant lists: the Python list operations the handlers use on them. */
module Rosters {

  /** No e-mail address appears twice in the list. */
  ghost predicate Distinct(s: seq<string>)
  {
    forall i, j :: 0 <= i < j < |s| ==> s[i] != s[j]
  }

  /** The position `list.remove` deletes: the first one holding `x`. */
  function FirstIndex(s: seq<string>, x: string): (i: nat)
    requires x in s
    ensures i < |s| && s[i] == x
    ensures x !in s[..i]
  {
    if s[0] == x then 0
    else
      assert s == [s[0]] + s[1..];
      var j := FirstIndex(s[1..], x);
      assert s[..j + 1] == [s[0]] + s[1..][..j];
      j + 1
  }

  /** Python's `list.remove(x)`: deletes the first occurrence of `x`, and only it. */
  function RemoveFirst(s: seq<string>, x: string): (r: seq<string>)
    requires x in s
    ensures |r| == |s| - 1
    ensures multiset(r) == multiset(s) - multiset{x}
    ensures forall k :: 0 <= k < FirstIndex(s, x) ==> r[k] == s[k]
    ensures forall k :: FirstIndex(s, x) <= k < |r| ==> r[k] == s[k + 1]
  {
    var i := FirstIndex(s, x);
    assert s == s[..i] + [x] + s[i + 1..];
    s[..i] + s[i + 1..]
  }

  /** Appending an address that is not yet listed keeps the list duplicate-free. */
  lemma AppendKeepsDistinct(s: seq<string>, x: string)
    requires Distinct(s) && x !in s
    ensures Distinct(s + [x])
  {
    forall i, j | 0 <= i < j < |s + [x]|
      ensures (s + [x])[i] != (s + [x])[j]
    {
      if j == |s| {
        assert (s + [x])[i] == s[i];
      }
    }
  }

  /** Removing from a duplicate-free list keeps it duplicate-free, and the address
      is then no longer listed at all. */
  lemma RemoveKeepsDistinct(s: seq<string>, x: string)
    requires Distinct(s) && x in s
    ensures Distinct(RemoveFirst(s, x))
    ensures x !in RemoveFirst(s, x)
  {
    var r, i := RemoveFirst(s, x), FirstIndex(s, x);
    forall a, b | 0 <= a < b < |r|
      ensures r[a] != r[b]
    {
      var a' := if a < i then a else a + 1;
      var b' := if b < i then b else b + 1;
      assert r[a] == s[a'] && r[b] == s[b'];
    }
    forall k | 0 <= k < |r|
      ensures r[k] != x
    {
      if k < i {
        assert r[k] == s[k] && s[k] in s[..i];
      } else {
        assert r[k] == s[k + 1];
      }
    }
  }

  /** Appending an absent address and then removing it gives back the list. */
  lemma RemoveUndoesAppend(s: seq<string>, x: string)
    requires x !in s
    ensures RemoveFirst(s + [x], x) == s
  {
    var t := s + [x];
    var i := FirstIndex(t, x);
    assert i == |s|;
    assert t[..i] == s;
  }
}
