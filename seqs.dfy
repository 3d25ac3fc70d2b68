/** Small sequence vocabulary shared by both engines. */
module Seqs {

  datatype Option<T> = None | Some(value: T)

  /** No element occurs twice. */
  predicate NoDup<T(==)>(s: seq<T>) {
    forall i, j :: 0 <= i < j < |s| ==> s[i] != s[j]
  }

  /** Strictly ascending. */
  predicate Increasing(s: seq<int>) {
    forall i, j :: 0 <= i < j < |s| ==> s[i] < s[j]
  }

  /** Python's `list.remove(v)`: drops the first occurrence of `v`, keeping the order of the rest.
      The list method raises when `v` is absent, so callers must hold `v`. */
  function RemoveFirst<T(==)>(s: seq<T>, v: T): (r: seq<T>)
    requires v in s
    ensures |r| == |s| - 1
    ensures multiset(r) == multiset(s) - multiset{v}
    ensures forall x :: x in r ==> x in s
    ensures forall x :: x in s && x != v ==> x in r
  {
    assert s == [s[0]] + s[1..];
    if s[0] == v then s[1..] else [s[0]] + RemoveFirst(s[1..], v)
  }

  /** Removing from a list without duplicates keeps it without duplicates and removes the element for good. */
  lemma {:induction false} RemoveFirstNoDup<T>(s: seq<T>, v: T)
    requires v in s && NoDup(s)
    ensures NoDup(RemoveFirst(s, v)) && v !in RemoveFirst(s, v)
  {
    if s[0] == v {
      assert s == [s[0]] + s[1..];
    } else {
      var t := s[1..];
      assert NoDup(t);
      RemoveFirstNoDup(t, v);
      var r := RemoveFirst(t, v);
      assert s[0] !in t;
      assert s[0] !in r;
      assert forall i, j :: 0 <= i < j < |[s[0]] + r| ==> ([s[0]] + r)[i] != ([s[0]] + r)[j] by {
        forall i, j | 0 <= i < j < |[s[0]] + r| ensures ([s[0]] + r)[i] != ([s[0]] + r)[j] {
          if i == 0 {
            assert ([s[0]] + r)[j] == r[j - 1];
          } else {
            assert ([s[0]] + r)[i] == r[i - 1] && ([s[0]] + r)[j] == r[j - 1];
          }
        }
      }
    }
  }

  /** Appending an absent element keeps a list without duplicates. */
  lemma AppendNoDup<T>(s: seq<T>, v: T)
    requires NoDup(s) && v !in s
    ensures NoDup(s + [v])
  {
  }
}
