/** Sequence facts behind the registry: identity-based removal of the first occurrence. */
module Sequences {

  /** No element occurs twice. */
  predicate Distinct<T(==)>(s: seq<T>)
  {
    forall i, j :: 0 <= i < j < |s| ==> s[i] != s[j]
  }

  /**
   * `s` without its first occurrence of `x`, the others kept in their order;
   * `s` itself when `x` does not occur (java.util.List.remove(Object)).
   */
  function RemoveFirst<T(==)>(s: seq<T>, x: T): (r: seq<T>)
    ensures |r| == if x in s then |s| - 1 else |s|
  {
    if s == [] then []
    else if s[0] == x then s[1..]
    else [s[0]] + RemoveFirst(s[1..], x)
  }

  /** Removing an element that is absent changes nothing. */
  lemma {:induction false} RemoveFirstAbsent<T>(s: seq<T>, x: T)
    requires x !in s
    ensures RemoveFirst(s, x) == s
  {
    if s != [] {
      assert s[0] != x;
      RemoveFirstAbsent(s[1..], x);
      assert [s[0]] + s[1..] == s;
    }
  }

  /** When `i` is the first index holding `x`, exactly index `i` is cut out. */
  lemma {:induction false} RemoveFirstAt<T>(s: seq<T>, x: T, i: nat)
    requires i < |s| && s[i] == x
    requires forall j :: 0 <= j < i ==> s[j] != x
    ensures RemoveFirst(s, x) == s[..i] + s[i + 1..]
  {
    if i > 0 {
      assert s[0] != x;
      RemoveFirstAt(s[1..], x, i - 1);
      assert s[..i] == [s[0]] + s[1..][..i - 1];
      assert s[i + 1..] == s[1..][i..];
    }
  }

  /** Exactly one copy of `x` leaves the multiset of elements, or none when absent. */
  lemma {:induction false} RemoveFirstMultiset<T>(s: seq<T>, x: T)
    ensures multiset(RemoveFirst(s, x)) == multiset(s) - multiset{x}
  {
    if s == [] {
    } else if s[0] == x {
      assert s == [s[0]] + s[1..];
    } else {
      RemoveFirstMultiset(s[1..], x);
      assert s == [s[0]] + s[1..];
    }
  }

  /**
   * On a sequence without repetitions, removal keeps it without repetitions,
   * takes `x` out for good and keeps every other element.
   */
  lemma {:induction false} RemoveFirstDistinct<T>(s: seq<T>, x: T)
    requires Distinct(s)
    ensures Distinct(RemoveFirst(s, x))
    ensures x !in RemoveFirst(s, x)
    ensures forall y :: y in RemoveFirst(s, x) <==> y in s && y != x
  {
    if s == [] {
    } else if s[0] == x {
      assert s == [s[0]] + s[1..];
      forall j | 0 <= j < |s[1..]| ensures s[1..][j] != x {
        assert s[1..][j] == s[j + 1];
      }
    } else {
      var t := s[1..];
      assert Distinct(t) by {
        forall i, j | 0 <= i < j < |t| ensures t[i] != t[j] {
          assert t[i] == s[i + 1] && t[j] == s[j + 1];
        }
      }
      forall j | 0 <= j < |t| ensures t[j] != s[0] {
        assert t[j] == s[j + 1];
      }
      RemoveFirstDistinct(t, x);
      var r := RemoveFirst(t, x);
      assert s[0] !in r;
      assert RemoveFirst(s, x) == [s[0]] + r;
      assert s == [s[0]] + t;
    }
  }
}
