/**
  Position-based list edits with the meaning of .NET's `List<T>`:
  `IndexOf` (first occurrence, -1 when absent), `RemoveAt` and `Insert`.
 */
module Seqs {

  /** The first position of `x` in `s`, or -1 when `x` does not occur. */
  function IndexOf<T(==)>(s: seq<T>, x: T): (i: int)
    ensures -1 <= i < |s|
    ensures 0 <= i ==> s[i] == x && x !in s[..i]
    ensures i < 0 <==> x !in s
  {
    if |s| == 0 then -1
    else if s[0] == x then 0
    else
      var k := IndexOf(s[1..], x);
      assert k >= 0 ==> s[1..][..k] == s[1..k + 1];
      if k < 0 then -1 else k + 1
  }

  /** `s` without its element at position `i`. */
  function RemoveAt<T>(s: seq<T>, i: nat): (r: seq<T>)
    requires i < |s|
    ensures |r| == |s| - 1
    ensures forall k :: 0 <= k < i ==> r[k] == s[k]
    ensures forall k :: i <= k < |r| ==> r[k] == s[k + 1]
  {
    s[..i] + s[i + 1..]
  }

  /** `s` with `x` placed at position `i`, later elements shifted up by one. */
  function Insert<T>(s: seq<T>, i: nat, x: T): (r: seq<T>)
    requires i <= |s|
    ensures |r| == |s| + 1 && r[i] == x
    ensures forall k :: 0 <= k < i ==> r[k] == s[k]
    ensures forall k :: i < k < |r| ==> r[k] == s[k - 1]
  {
    s[..i] + [x] + s[i..]
  }

  /** Inserting at a position and removing it again gives the list back. */
  lemma RemoveInserted<T>(s: seq<T>, i: nat, x: T)
    requires i <= |s|
    ensures RemoveAt(Insert(s, i, x), i) == s
  {
  }

  /** Putting a removed element back where it was gives the list back. */
  lemma InsertRemoved<T>(s: seq<T>, i: nat)
    requires i < |s|
    ensures Insert(RemoveAt(s, i), i, s[i]) == s
  {
  }

  /** Appending is inserting at the end. */
  lemma AppendIsInsert<T>(s: seq<T>, x: T)
    ensures Insert(s, |s|, x) == s + [x]
  {
  }

  lemma MultisetRemoveAt<T>(s: seq<T>, i: nat)
    requires i < |s|
    ensures multiset(RemoveAt(s, i)) + multiset{s[i]} == multiset(s)
  {
    assert s == s[..i] + [s[i]] + s[i + 1..];
  }

  lemma MultisetInsert<T>(s: seq<T>, i: nat, x: T)
    requires i <= |s|
    ensures multiset(Insert(s, i, x)) == multiset(s) + multiset{x}
  {
    assert s == s[..i] + s[i..];
  }

  /**
    Moving the element at `i` so that it lands in front of the element at
    `j`: remove it, then insert it at `j - 1` if it came first and at `j`
    otherwise.
   */
  function MoveBefore<T>(s: seq<T>, i: nat, j: nat): seq<T>
    requires i < |s| && j < |s|
  {
    Insert(RemoveAt(s, i), if i < j then j - 1 else j, s[i])
  }

  /**
    The moved element ends up immediately before the old `s[j]`, all other
    elements keep their relative order, and nothing is lost or duplicated;
    moving an element in front of itself changes nothing.
   */
  lemma MoveLandsBefore<T>(s: seq<T>, i: nat, j: nat)
    requires i < |s| && j < |s|
    ensures var k := if i < j then j - 1 else j;
            var r := MoveBefore(s, i, j);
            && |r| == |s|
            && r[k] == s[i]
            && (i != j ==> r[k + 1] == s[j])
            && RemoveAt(r, k) == RemoveAt(s, i)
            && multiset(r) == multiset(s)
    ensures i == j ==> MoveBefore(s, i, j) == s
  {
    var k := if i < j then j - 1 else j;
    var rest := RemoveAt(s, i);
    var r := Insert(rest, k, s[i]);
    assert MoveBefore(s, i, j) == r;
    RemoveInserted(rest, k, s[i]);
    MultisetInsert(rest, k, s[i]);
    MultisetRemoveAt(s, i);
    if i == j {
      InsertRemoved(s, i);
    } else {
      MovedNeighbour(s, i, j);
    }
  }

  /** The element after the moved one is the one it was dropped in front of. */
  lemma MovedNeighbour<T>(s: seq<T>, i: nat, j: nat)
    requires i < |s| && j < |s| && i != j
    ensures var k := if i < j then j - 1 else j;
            k + 1 < |MoveBefore(s, i, j)| && MoveBefore(s, i, j)[k + 1] == s[j]
  {
    var k := if i < j then j - 1 else j;
    var rest := RemoveAt(s, i);
    assert rest[k] == s[j];
  }

  /** `List.Remove`: the first occurrence of `x` goes, if there is one. */
  function Without<T(==)>(s: seq<T>, x: T): (r: seq<T>)
    ensures x !in s ==> r == s
    ensures x in s ==> |r| == |s| - 1 && multiset(r) + multiset{x} == multiset(s)
    ensures forall k :: 0 <= k < |s| && s[k] != x ==> s[k] in r
    ensures x in s ==> exists i :: 0 <= i < |s| && s[i] == x && x !in s[..i] && r == s[..i] + s[i + 1..]
  {
    var i := IndexOf(s, x);
    if i < 0 then s
    else
      MultisetRemoveAt(s, i);
      assert RemoveAt(s, i) == s[..i] + s[i + 1..];
      RemoveAt(s, i)
  }
}
