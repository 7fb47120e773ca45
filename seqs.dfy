/**
  Sequence surgery used by the compaction passes: removing the first
  occurrence of an element (what `List<T>.Remove` does), dropping a set of
  elements, and the "only deletions, order kept" relation between an event
  list before and after a pass.
 */
module Seqs {

  /** No element occurs twice. */
  predicate Distinct<T(==)>(s: seq<T>) {
    forall i, j :: 0 <= i < j < |s| ==> s[i] != s[j]
  }

  /** Both halves of a repeat-free concatenation are repeat-free, and they share nothing. */
  lemma DistinctAppend<T>(a: seq<T>, b: seq<T>)
    requires Distinct(a + b)
    ensures Distinct(a) && Distinct(b) && forall x :: x in a ==> x !in b
  {
    forall i, j | 0 <= i < j < |a| ensures a[i] != a[j] {
      assert (a + b)[i] == a[i] && (a + b)[j] == a[j];
    }
    forall i, j | 0 <= i < j < |b| ensures b[i] != b[j] {
      assert (a + b)[|a| + i] == b[i] && (a + b)[|a| + j] == b[j];
    }
    forall i, j | 0 <= i < |a| && 0 <= j < |b| ensures a[i] != b[j] {
      assert (a + b)[i] == a[i] && (a + b)[|a| + j] == b[j];
    }
  }

  function Elems<T>(s: seq<T>): set<T> {
    set x | x in s
  }

  /** `List<T>.Remove(x)`: deletes the first occurrence of `x`, if any. */
  function RemoveFirst<T(==)>(s: seq<T>, x: T): (r: seq<T>)
    ensures x !in s ==> r == s
    ensures x in s ==> |r| == |s| - 1
    ensures forall y :: y in r ==> y in s
  {
    if s == [] then []
    else if s[0] == x then s[1..]
    else [s[0]] + RemoveFirst(s[1..], x)
  }

  /** The position of the first occurrence of `x`. */
  function IndexOf<T(==)>(s: seq<T>, x: T): (k: nat)
    requires x in s
    ensures k < |s| && s[k] == x
  {
    if s[0] == x then 0 else 1 + IndexOf(s[1..], x)
  }

  lemma ElemsCons<T>(s: seq<T>)
    requires s != []
    ensures Elems(s) == {s[0]} + Elems(s[1..])
  {
    forall y | y in Elems(s) ensures y in {s[0]} + Elems(s[1..]) {
      var i :| 0 <= i < |s| && s[i] == y;
      if i > 0 { assert s[1..][i - 1] == y; }
    }
  }

  /** `s` with every element of `gone` deleted, the rest in their order. */
  function Drop<T(==)>(s: seq<T>, gone: set<T>): seq<T> {
    if s == [] then []
    else (if s[0] in gone then [] else [s[0]]) + Drop(s[1..], gone)
  }

  /** `a` is `b` with some elements deleted and the others kept in order. */
  predicate IsSublist<T(==)>(a: seq<T>, b: seq<T>) {
    a == Drop(b, Elems(b) - Elems(a))
  }

  /** `x` occurs strictly before `y` in `s`. */
  predicate Before<T(==)>(s: seq<T>, x: T, y: T) {
    exists p, q :: 0 <= p < q < |s| && s[p] == x && s[q] == y
  }

  lemma {:induction false} DropElems<T>(s: seq<T>, gone: set<T>)
    ensures Elems(Drop(s, gone)) == Elems(s) - gone
  {
    if s != [] {
      DropElems(s[1..], gone);
      ElemsCons(s);
      var d := Drop(s, gone);
      if s[0] !in gone {
        assert d != [] && d[0] == s[0] && d[1..] == Drop(s[1..], gone);
        ElemsCons(d);
      } else {
        assert d == Drop(s[1..], gone);
      }
    }
  }

  lemma {:induction false} DropNothing<T>(s: seq<T>, gone: set<T>)
    requires Elems(s) !! gone
    ensures Drop(s, gone) == s
  {
    if s != [] {
      ElemsCons(s);
      DropNothing(s[1..], gone);
    }
  }

  lemma {:induction false} DropDrop<T>(s: seq<T>, a: set<T>, b: set<T>)
    ensures Drop(Drop(s, a), b) == Drop(s, a + b)
  {
    if s != [] {
      DropDrop(s[1..], a, b);
      if s[0] !in a {
        assert Drop(s, a) == [s[0]] + Drop(s[1..], a);
        assert Drop(s, a)[1..] == Drop(s[1..], a);
      } else {
        assert Drop(s, a) == Drop(s[1..], a);
      }
    }
  }

  lemma {:induction false} DropDistinct<T>(s: seq<T>, gone: set<T>)
    requires Distinct(s)
    ensures Distinct(Drop(s, gone))
  {
    if s != [] {
      assert Distinct(s[1..]);
      DropDistinct(s[1..], gone);
      DropElems(s[1..], gone);
      assert s[0] !in Elems(s[1..]);
      var d := Drop(s[1..], gone);
      if s[0] !in gone {
        assert forall i :: 0 <= i < |d| ==> d[i] in Elems(d);
      }
    }
  }

  /** In a list without duplicates, `Remove(x)` deletes exactly `x`. */
  lemma {:induction false} RemoveFirstIsDrop<T>(s: seq<T>, x: T)
    requires Distinct(s)
    ensures RemoveFirst(s, x) == Drop(s, {x})
  {
    if s != [] {
      assert Distinct(s[1..]);
      if s[0] == x {
        ElemsCons(s);
        assert x !in Elems(s[1..]);
        DropNothing(s[1..], {x});
      } else {
        RemoveFirstIsDrop(s[1..], x);
      }
    }
  }

  /** Removing the element found at position `k` closes the gap. */
  lemma {:induction false} RemoveFirstAt<T>(s: seq<T>, k: nat)
    requires Distinct(s) && k < |s|
    ensures RemoveFirst(s, s[k]) == s[..k] + s[k + 1..]
  {
    if k > 0 {
      assert Distinct(s[1..]);
      RemoveFirstAt(s[1..], k - 1);
      assert s[1..][..k - 1] == s[1..k];
      assert s[1..][k..] == s[k + 1..];
      assert [s[0]] + s[1..k] == s[..k];
    }
  }

  /** One `Remove` of a listed element keeps the "only deletions" shape. */
  lemma RemoveFirstDistinct<T>(s: seq<T>, x: T)
    requires Distinct(s)
    ensures Distinct(RemoveFirst(s, x))
    ensures RemoveFirst(s, x) == Drop(s, {x})
    ensures Elems(RemoveFirst(s, x)) == Elems(s) - {x}
  {
    RemoveFirstIsDrop(s, x);
    DropDistinct(s, {x});
    DropElems(s, {x});
  }

  /** Deleting elements never reverses two survivors. */
  lemma {:induction false} DropBefore<T>(s: seq<T>, gone: set<T>, x: T, y: T)
    requires Before(Drop(s, gone), x, y)
    ensures Before(s, x, y)
  {
    var d := Drop(s, gone);
    var p, q :| 0 <= p < q < |d| && d[p] == x && d[q] == y;
    assert s != [];
    var rest := Drop(s[1..], gone);
    if s[0] in gone {
      assert d == rest;
      DropBefore(s[1..], gone, x, y);
      var p', q' :| 0 <= p' < q' < |s[1..]| && s[1..][p'] == x && s[1..][q'] == y;
      assert s[p' + 1] == x && s[q' + 1] == y;
    } else {
      assert d == [s[0]] + rest;
      if p == 0 {
        DropElems(s[1..], gone);
        assert y in Elems(rest) by { assert rest[q - 1] == y; }
        var q' :| 0 <= q' < |s[1..]| && s[1..][q'] == y;
        assert s[0] == x && s[q' + 1] == y;
      } else {
        assert rest[p - 1] == x && rest[q - 1] == y;
        DropBefore(s[1..], gone, x, y);
        var p', q' :| 0 <= p' < q' < |s[1..]| && s[1..][p'] == x && s[1..][q'] == y;
        assert s[p' + 1] == x && s[q' + 1] == y;
      }
    }
  }

  /** Conversely, two survivors of a deletion keep their relative order. */
  lemma {:induction false} BeforeDrop<T>(s: seq<T>, gone: set<T>, x: T, y: T)
    requires Before(s, x, y) && x !in gone && y !in gone
    ensures Before(Drop(s, gone), x, y)
  {
    var p, q :| 0 <= p < q < |s| && s[p] == x && s[q] == y;
    var rest := Drop(s[1..], gone);
    if p == 0 {
      assert y in Elems(s[1..]) by { assert s[1..][q - 1] == y; }
      DropElems(s[1..], gone);
      assert y in rest by { assert y in Elems(rest); }
      var q' :| 0 <= q' < |rest| && rest[q'] == y;
      assert Drop(s, gone) == [x] + rest;
      assert Drop(s, gone)[0] == x && Drop(s, gone)[q' + 1] == y;
    } else {
      assert s[1..][p - 1] == x && s[1..][q - 1] == y;
      BeforeDrop(s[1..], gone, x, y);
      var p', q' :| 0 <= p' < q' < |rest| && rest[p'] == x && rest[q'] == y;
      var pre := if s[0] in gone then [] else [s[0]];
      assert Drop(s, gone) == pre + rest;
      assert Drop(s, gone)[p' + |pre|] == x && Drop(s, gone)[q' + |pre|] == y;
    }
  }

  /** The sublist relation is transitive: two rounds of deletions are one. */
  lemma SublistTrans<T>(a: seq<T>, b: seq<T>, c: seq<T>)
    requires IsSublist(a, b) && IsSublist(b, c)
    ensures IsSublist(a, c)
  {
    var gb := Elems(c) - Elems(b);
    var ga := Elems(b) - Elems(a);
    DropDrop(c, gb, ga);
    DropElems(c, gb);
    DropElems(b, ga);
    assert gb + ga == Elems(c) - Elems(a);
  }

  lemma SublistRefl<T>(a: seq<T>)
    ensures IsSublist(a, a)
  {
    assert Elems(a) - Elems(a) == {};
    DropNothing(a, {});
  }

  /** A sublist holds only elements of the original and inherits its distinctness. */
  lemma SublistKeeps<T>(a: seq<T>, b: seq<T>)
    requires IsSublist(a, b)
    ensures forall x :: x in a ==> x in b
    ensures Distinct(b) ==> Distinct(a)
  {
    var gone := Elems(b) - Elems(a);
    DropElems(b, gone);
    assert forall x :: x in a ==> x in Elems(a);
    if Distinct(b) {
      DropDistinct(b, gone);
    }
  }

  /** Dropping a set yields a sublist. */
  lemma DropIsSublist<T>(s: seq<T>, gone: set<T>)
    ensures IsSublist(Drop(s, gone), s)
  {
    DropElems(s, gone);
    var g2 := Elems(s) - Elems(Drop(s, gone));
    assert g2 == Elems(s) * gone;
    DropDrop(s, {}, gone);
    DropSameOnElems(s, gone, g2);
  }

  /** A kept head: putting the same element in front of both lists keeps the relation. */
  lemma SublistCons<T>(x: T, a: seq<T>, b: seq<T>)
    requires IsSublist(a, b) && (x in b ==> x in a)
    ensures IsSublist([x] + a, [x] + b)
  {
    var g := Elems(b) - Elems(a);
    assert Elems([x] + b) == {x} + Elems(b);
    assert Elems([x] + a) == {x} + Elems(a);
    assert Elems([x] + b) - Elems([x] + a) == g;
    assert ([x] + b)[1..] == b;
  }

  /** A dropped head: an element that is not kept may stand in front of the original. */
  lemma SublistSkip<T>(x: T, a: seq<T>, b: seq<T>)
    requires IsSublist(a, b) && x !in a
    ensures IsSublist(a, [x] + b)
  {
    var g := Elems(b) - Elems(a);
    assert Elems([x] + b) == {x} + Elems(b);
    assert Elems([x] + b) - Elems(a) == g + {x};
    assert ([x] + b)[1..] == b;
    assert Elems(b) * (g + {x}) == Elems(b) * g;
    DropSameOnElems(b, g + {x}, g);
  }

  /** Only the members of `s` in the dropped set matter. */
  lemma {:induction false} DropSameOnElems<T>(s: seq<T>, a: set<T>, b: set<T>)
    requires Elems(s) * a == Elems(s) * b
    ensures Drop(s, a) == Drop(s, b)
  {
    if s != [] {
      ElemsCons(s);
      var e1 := Elems(s[1..]);
      assert e1 * a == e1 * (Elems(s) * a);
      assert e1 * b == e1 * (Elems(s) * b);
      assert s[0] in Elems(s);
      assert s[0] in a <==> s[0] in Elems(s) * a;
      DropSameOnElems(s[1..], a, b);
    }
  }
  /**
    `list1` and `owned1` come from `list0` and `owned0` by deleting, from
    both, the same elements: those that left the working list.
   */
  predicate DeletedFromBoth<T(==)>(list0: seq<T>, list1: seq<T>, owned0: seq<T>, owned1: seq<T>) {
    var gone := Elems(list0) - Elems(list1);
    list1 == Drop(list0, gone) && owned1 == Drop(owned0, gone)
  }

  lemma DeletedNone<T>(list: seq<T>, owned: seq<T>)
    ensures DeletedFromBoth(list, list, owned, owned)
  {
    assert Elems(list) - Elems(list) == {};
    DropNothing(list, {});
    DropNothing(owned, {});
  }

  /** One `RemoveEvent` call: the same element leaves both lists. */
  lemma DeletedOne<T>(list: seq<T>, owned: seq<T>, x: T)
    requires Distinct(list) && Distinct(owned) && x in list
    ensures DeletedFromBoth(list, RemoveFirst(list, x), owned, RemoveFirst(owned, x))
  {
    RemoveFirstDistinct(list, x);
    RemoveFirstDistinct(owned, x);
    assert Elems(list) - Elems(RemoveFirst(list, x)) == {x};
  }

  lemma DeletedTrans<T>(l0: seq<T>, l1: seq<T>, l2: seq<T>, o0: seq<T>, o1: seq<T>, o2: seq<T>)
    requires DeletedFromBoth(l0, l1, o0, o1) && DeletedFromBoth(l1, l2, o1, o2)
    ensures DeletedFromBoth(l0, l2, o0, o2)
  {
    var g1 := Elems(l0) - Elems(l1);
    var g2 := Elems(l1) - Elems(l2);
    DropDrop(l0, g1, g2);
    DropDrop(o0, g1, g2);
    DropElems(l0, g1);
    DropElems(l1, g2);
    assert g1 + g2 == Elems(l0) - Elems(l2);
  }

  lemma DeletedSublist<T>(l0: seq<T>, l1: seq<T>, o0: seq<T>, o1: seq<T>)
    requires DeletedFromBoth(l0, l1, o0, o1)
    ensures IsSublist(l1, l0) && IsSublist(o1, o0)
    ensures Elems(o0) - Elems(o1) <= Elems(l0)
  {
    var gone := Elems(l0) - Elems(l1);
    DropIsSublist(l0, gone);
    DropIsSublist(o0, gone);
    DropElems(o0, gone);
  }
}
