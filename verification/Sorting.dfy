/** The two library routines the source relies on: a stable sort and "first minimum". */
module Sorting {

  ghost predicate TotalPreorder<T(!new)>(le: (T, T) -> bool) {
    && (forall a, b :: le(a, b) || le(b, a))
    && (forall a, b, c :: le(a, b) && le(b, c) ==> le(a, c))
  }

  ghost predicate SortedBy<T>(s: seq<T>, le: (T, T) -> bool) {
    forall i, j :: 0 <= i < j < |s| ==> le(s[i], s[j])
  }

  function Insert<T>(x: T, s: seq<T>, le: (T, T) -> bool): seq<T> {
    if s == [] then [x]
    else if le(x, s[0]) then [x] + s
    else [s[0]] + Insert(x, s[1..], le)
  }

  /** A stable sort: an element goes in front of every later element it does not exceed. */
  function Sort<T>(s: seq<T>, le: (T, T) -> bool): seq<T> {
    if s == [] then [] else Insert(s[0], Sort(s[1..], le), le)
  }

  lemma {:induction false} InsertPermutes<T>(x: T, s: seq<T>, le: (T, T) -> bool)
    ensures multiset(Insert(x, s, le)) == multiset(s) + multiset{x}
  {
    if s != [] && !le(x, s[0]) {
      InsertPermutes(x, s[1..], le);
      assert s == [s[0]] + s[1..];
    }
  }

  lemma {:induction false} SortPermutes<T>(s: seq<T>, le: (T, T) -> bool)
    ensures multiset(Sort(s, le)) == multiset(s)
    ensures |Sort(s, le)| == |s|
  {
    if s != [] {
      SortPermutes(s[1..], le);
      InsertPermutes(s[0], Sort(s[1..], le), le);
      assert s == [s[0]] + s[1..];
    }
    assert |multiset(Sort(s, le))| == |multiset(s)|;
  }

  lemma {:induction false} InsertSorts<T(!new)>(x: T, s: seq<T>, le: (T, T) -> bool)
    requires TotalPreorder(le) && SortedBy(s, le)
    ensures SortedBy(Insert(x, s, le), le)
  {
    if s != [] && !le(x, s[0]) {
      InsertSorts(x, s[1..], le);
      InsertPermutes(x, s[1..], le);
      var tail := Insert(x, s[1..], le);
      forall j | 0 <= j < |tail| ensures le(s[0], tail[j]) {
        assert tail[j] in multiset(tail);
        assert tail[j] == x || tail[j] in s[1..];
      }
    }
  }

  lemma {:induction false} SortSorts<T(!new)>(s: seq<T>, le: (T, T) -> bool)
    requires TotalPreorder(le)
    ensures SortedBy(Sort(s, le), le)
  {
    if s != [] {
      SortSorts(s[1..], le);
      InsertSorts(s[0], Sort(s[1..], le), le);
    }
  }

  lemma SortMembers<T>(s: seq<T>, le: (T, T) -> bool, x: T)
    ensures x in Sort(s, le) <==> x in s
  {
    SortPermutes(s, le);
    assert x in multiset(Sort(s, le)) <==> x in multiset(s);
  }

  /** The first of the least elements, as Rust's `min_by` returns it. */
  function FirstMin<T>(s: seq<T>, le: (T, T) -> bool): (m: T)
    requires s != []
    ensures m in s
  {
    if |s| == 1 then s[0]
    else
      var m := FirstMin(s[1..], le);
      if le(s[0], m) then s[0] else m
  }

  lemma {:induction false} FirstMinIsLeast<T(!new)>(s: seq<T>, le: (T, T) -> bool)
    requires s != [] && TotalPreorder(le)
    ensures forall x :: x in s ==> le(FirstMin(s, le), x)
  {
    if |s| > 1 {
      FirstMinIsLeast(s[1..], le);
    }
  }

  /** Of several least elements the first is taken. */
  lemma {:induction false} FirstMinIsFirst<T(!new)>(s: seq<T>, le: (T, T) -> bool) returns (i: nat)
    requires s != [] && TotalPreorder(le)
    ensures i < |s| && s[i] == FirstMin(s, le) && forall j :: 0 <= j < i ==> !le(s[j], s[i])
  {
    i := 0;
    if |s| > 1 {
      var k := FirstMinIsFirst(s[1..], le);
      FirstMinIsLeast(s[1..], le);
      if !le(s[0], FirstMin(s[1..], le)) {
        i := k + 1;
      }
    }
  }

  /** The elements that rank with `k`, in order. */
  function Alike<T>(s: seq<T>, le: (T, T) -> bool, k: T): seq<T> {
    if s == [] then []
    else (if le(s[0], k) && le(k, s[0]) then [s[0]] else []) + Alike(s[1..], le, k)
  }

  lemma AlikeCons<T>(x: T, s: seq<T>, le: (T, T) -> bool, k: T)
    ensures Alike([x] + s, le, k) == (if le(x, k) && le(k, x) then [x] else []) + Alike(s, le, k)
  {
    assert ([x] + s)[1..] == s;
  }

  lemma {:induction false} InsertStable<T(!new)>(x: T, s: seq<T>, le: (T, T) -> bool, k: T)
    requires TotalPreorder(le) && SortedBy(s, le)
    ensures Alike(Insert(x, s, le), le, k) == Alike([x] + s, le, k)
  {
    if s != [] && !le(x, s[0]) {
      var head, rest := s[0], s[1..];
      InsertStable(x, rest, le, k);
      var ax := if le(x, k) && le(k, x) then [x] else [];
      var ah := if le(head, k) && le(k, head) then [head] else [];
      var r := Alike(rest, le, k);
      AlikeCons(x, rest, le, k);
      AlikeCons(x, s, le, k);
      AlikeCons(head, Insert(x, rest, le), le, k);
      assert !(le(x, k) && le(k, head));
      assert ax == [] || ah == [];
      assert ah + (ax + r) == ax + (ah + r);
    }
  }

  /** The sort is stable: elements of equal rank keep their order. */
  lemma {:induction false} SortStable<T(!new)>(s: seq<T>, le: (T, T) -> bool, k: T)
    requires TotalPreorder(le)
    ensures Alike(Sort(s, le), le, k) == Alike(s, le, k)
  {
    if s != [] {
      SortStable(s[1..], le, k);
      SortSorts(s[1..], le);
      InsertStable(s[0], Sort(s[1..], le), le, k);
      AlikeCons(s[0], Sort(s[1..], le), le, k);
    }
  }
}
