/** Notions every layer uses. */
module Basics {

  datatype Option<+T> = None | Some(value: T)

  function Min(a: nat, b: nat): nat { if a < b then a else b }

  /** No element occurs twice. */
  ghost predicate Distinct<T>(s: seq<T>)
  {
    forall i, j :: 0 <= i < j < |s| ==> s[i] != s[j]
  }

  /** The sequence without the first occurrence of e. */
  function Without<T(==)>(s: seq<T>, e: T): seq<T>
  {
    if s == [] then [] else if s[0] == e then s[1..] else [s[0]] + Without(s[1..], e)
  }

  lemma {:induction false} WithoutMembers<T>(s: seq<T>, e: T)
    requires Distinct(s)
    ensures Distinct(Without(s, e))
    ensures forall x :: x in Without(s, e) <==> x in s && x != e
  {
    if s != [] {
      var tail := s[1..];
      assert s == [s[0]] + tail;
      assert forall i :: 0 <= i < |tail| ==> tail[i] == s[i + 1];
      WithoutMembers(tail, e);
      var r := Without(tail, e);
      assert s[0] !in tail;
      if s[0] == e {
        assert e !in tail;
      } else {
        var all := [s[0]] + r;
        forall i, j | 0 <= i < j < |all| ensures all[i] != all[j] {
          assert all[j] == r[j - 1] && r[j - 1] in r;
          if i > 0 { assert all[i] == r[i - 1]; }
        }
      }
    }
  }
}
