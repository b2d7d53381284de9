/** Definitions that several models share. */
module Common {
  const PAGE := 4096           // PAGE_SIZE

  datatype Option<T> = None | Some(value: T)

  predicate NoDup(s: seq<nat>) {
    forall i, j :: 0 <= i < j < |s| ==> s[i] != s[j]
  }

  /** The sequence without the first occurrence of x. */
  function Remove(s: seq<nat>, x: nat): seq<nat> {
    if s == [] then [] else if s[0] == x then s[1..] else [s[0]] + Remove(s[1..], x)
  }

  lemma {:induction false} RemoveProps(s: seq<nat>, x: nat)
    requires NoDup(s)
    ensures NoDup(Remove(s, x))
    ensures forall y :: y in Remove(s, x) <==> y in s && y != x
    ensures |Remove(s, x)| == |s| - (if x in s then 1 else 0)
  {
    if s != [] {
      RemoveProps(s[1..], x);
      assert s == [s[0]] + s[1..];
      assert s[0] !in s[1..];
    }
  }

  lemma NoDupAppend(s: seq<nat>, x: nat)
    requires NoDup(s) && x !in s
    ensures NoDup(s + [x])
  {
  }

  lemma {:induction false} NoLonger(s: seq<nat>, t: seq<nat>)
    requires NoDup(s) && NoDup(t) && forall x :: x in s ==> x in t
    ensures |s| <= |t|
  {
    if s != [] {
      RemoveProps(t, s[0]);
      assert s[0] in s && s == [s[0]] + s[1..];
      NoLonger(s[1..], Remove(t, s[0]));
    }
  }
}
