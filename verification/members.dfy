/** Insertion-ordered sets of identifiers, as a JavaScript `Set` behaves.

    A room's member set is kept as a duplicate-free sequence: `add` appends an
    element that is not yet present and leaves the set alone otherwise, `delete`
    drops the element and keeps the order of the rest, and iteration visits the
    elements in insertion order.
 */
module Members {

  /** A connection identifier, issued by the transport; opaque. */
  type Id = string

  /** No element occurs twice. */
  ghost predicate NoDup(m: seq<Id>) {
    forall i, j :: 0 <= i < j < |m| ==> m[i] != m[j]
  }

  /** The elements of `m`, forgetting order. */
  function Elements(m: seq<Id>): set<Id> {
    set y | y in m
  }

  /** `Set.prototype.add`: inserts `x` at the end unless it is already present. */
  function Add(m: seq<Id>, x: Id): (r: seq<Id>)
    ensures forall y :: y in r <==> y in m || y == x
    ensures x in m ==> r == m
    ensures x !in m ==> |r| == |m| + 1 && r[|m|] == x && r[..|m|] == m
    ensures NoDup(m) ==> NoDup(r)
  {
    if x in m then m else m + [x]
  }

  /** `Set.prototype.delete`, and equally `Array.prototype.filter(y => y !== x)`:
      every occurrence of `x` is dropped, the rest keep their order. */
  function Remove(m: seq<Id>, x: Id): (r: seq<Id>)
    ensures forall y :: y in r <==> y in m && y != x
    ensures |r| <= |m|
    ensures x !in m ==> r == m
    ensures NoDup(m) ==> NoDup(r)
  {
    if m == [] then []
    else if m[0] == x then Remove(m[1..], x)
    else
      var rest := Remove(m[1..], x);
      assert NoDup(m) ==> NoDup(rest) && m[0] !in rest by {
        if NoDup(m) { SplitHead(m); }
      }
      [m[0]] + rest
  }

  /** Deleting the element at position `k` of a duplicate-free sequence keeps
      everything before it and everything after it, in their order: the
      members listed after a deletion are the old ones with just that gap. */
  lemma {:induction false} RemoveKeepsOrder(m: seq<Id>, x: Id, k: nat)
    requires NoDup(m)
    requires k < |m| && m[k] == x
    ensures Remove(m, x) == m[..k] + m[k + 1..]
  {
    SplitHead(m);
    var tail := m[1..];
    if k == 0 {
      assert Remove(m, x) == Remove(tail, x);
      assert m[..0] + m[1..] == tail;
    } else {
      assert m[0] != x;
      assert Remove(m, x) == [m[0]] + Remove(tail, x);
      assert tail[k - 1] == x;
      RemoveKeepsOrder(tail, x, k - 1);
      assert tail[..k - 1] + tail[k..] == m[1..k] + m[k + 1..];
      assert m[..k] == [m[0]] + m[1..k];
    }
  }

  /** A duplicate-free sequence is its head followed by a duplicate-free tail
      that does not contain the head. */
  lemma SplitHead(m: seq<Id>)
    requires NoDup(m)
    requires m != []
    ensures NoDup(m[1..])
    ensures m[0] !in m[1..]
  {
  }

  /** Removing a present element of a duplicate-free sequence shortens it by exactly one. */
  lemma {:induction false} RemoveSize(m: seq<Id>, x: Id)
    requires NoDup(m)
    requires x in m
    ensures |Remove(m, x)| == |m| - 1
  {
    SplitHead(m);
    if m[0] != x {
      assert x in m[1..] by {
        var k :| 0 <= k < |m| && m[k] == x;
        assert k > 0 && m[1..][k - 1] == x;
      }
      RemoveSize(m[1..], x);
    }
  }

  /** For a duplicate-free sequence, its length is the number of distinct
      elements: what the source reads as `Set.prototype.size`. */
  lemma {:induction false} DistinctCount(m: seq<Id>)
    requires NoDup(m)
    ensures |Elements(m)| == |m|
  {
    if m != [] {
      var tail := m[1..];
      SplitHead(m);
      DistinctCount(tail);
      assert Elements(m) == Elements(tail) + {m[0]} by {
        assert m == [m[0]] + tail;
      }
    }
  }
}
