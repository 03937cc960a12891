/** The display order chosen in the `TravelList` component. `default` shows the
    items as they are; `description` and `packed` sort a copy (`.slice()`) with
    the engine's in-place `.sort()` and a comparator.

    The engine's sort is stable. It is modelled by a stable insertion sort:
    `SortBy` as a function, `SortedCopy` as the in-place algorithm on an array
    copy, proved to compute `SortBy`. For the packed comparator every stable
    sort gives the same result, so the model is exact there. The description
    comparator never answers 0, so engines may order equal descriptions
    differently; for it only the ordering and the permutation are claimed. */
module Projection {
  import opened Items
  import Strings

  /** The value of the sort `<select>`: "default", "description" or "packed". */
  datatype Selection = Default | Description | Packed

  /** The two comparators passed to `.sort()`. */
  datatype Comparator = ByDescription | ByPacked

  /** `Number(b)` for a boolean. */
  function Number(b: bool): int
  {
    if b then 1 else 0
  }

  /** `(a, b) => (a.description > b.description ? 1 : -1)` and
      `(a, b) => Number(a.packed) - Number(b.packed)`. */
  function Compare(c: Comparator, a: Item, b: Item): (r: int)
    ensures c == ByDescription ==> r != 0 && (r > 0 <==> Strings.Less(b.description, a.description))
    ensures c == ByPacked ==> (r > 0 <==> a.packed && !b.packed) && (r < 0 <==> !a.packed && b.packed)
  {
    match c
    case ByDescription => if Strings.Less(b.description, a.description) then 1 else -1
    case ByPacked => Number(a.packed) - Number(b.packed)
  }

  /** Insert `x` behind the sorted prefix `sorted`: `x` moves left past every
      element the comparator puts after it, and stops at the first that it
      does not, so equal elements keep their order. */
  function Insert(c: Comparator, sorted: seq<Item>, x: Item): (r: seq<Item>)
    ensures |r| == |sorted| + 1
    decreases |sorted|
  {
    if sorted == [] then [x]
    else if Compare(c, sorted[|sorted| - 1], x) > 0 then
      Insert(c, sorted[..|sorted| - 1], x) + [sorted[|sorted| - 1]]
    else sorted + [x]
  }

  /** Stable insertion sort: sort all but the last element, then insert it. */
  function SortBy(c: Comparator, s: seq<Item>): (r: seq<Item>)
    ensures |r| == |s|
    decreases |s|
  {
    if s == [] then []
    else Insert(c, SortBy(c, s[..|s| - 1]), s[|s| - 1])
  }

  lemma {:induction false} InsertPermutes(c: Comparator, sorted: seq<Item>, x: Item)
    ensures multiset(Insert(c, sorted, x)) == multiset(sorted) + multiset{x}
    decreases |sorted|
  {
    if sorted != [] && Compare(c, sorted[|sorted| - 1], x) > 0 {
      assert sorted == sorted[..|sorted| - 1] + [sorted[|sorted| - 1]];
      InsertPermutes(c, sorted[..|sorted| - 1], x);
    }
  }

  /** Sorting only reorders. */
  lemma {:induction false} SortByPermutes(c: Comparator, s: seq<Item>)
    ensures multiset(SortBy(c, s)) == multiset(s)
    decreases |s|
  {
    if s != [] {
      assert s == s[..|s| - 1] + [s[|s| - 1]];
      SortByPermutes(c, s[..|s| - 1]);
      InsertPermutes(c, SortBy(c, s[..|s| - 1]), s[|s| - 1]);
    }
  }

  /** The displayed sequence `sortedItems` for a selection. */
  function Project(sel: Selection, items: seq<Item>): (r: seq<Item>)
    ensures multiset(r) == multiset(items)
    ensures sel == Default ==> r == items
  {
    match sel
    case Default => items
    case Description => SortByPermutes(ByDescription, items); SortBy(ByDescription, items)
    case Packed => SortByPermutes(ByPacked, items); SortBy(ByPacked, items)
  }

  /** No element is put after a later one by the comparator. */
  ghost predicate Sorted(c: Comparator, s: seq<Item>)
  {
    forall i, j :: 0 <= i < j < |s| ==> Compare(c, s[i], s[j]) <= 0
  }

  /** What the comparators promise: if `a` goes after `b` then `b` does not go
      after `a`, and "not after" is transitive. */
  lemma CompareAsymmetric(c: Comparator, a: Item, b: Item)
    ensures Compare(c, a, b) > 0 ==> Compare(c, b, a) <= 0
  {
    if c == ByDescription {
      Strings.LessAsymmetric(b.description, a.description);
    }
  }

  lemma CompareAtMostTransitive(c: Comparator, a: Item, b: Item, d: Item)
    requires Compare(c, a, b) <= 0 && Compare(c, b, d) <= 0
    ensures Compare(c, a, d) <= 0
  {
    if c == ByDescription {
      Strings.AtMostTransitive(a.description, b.description, d.description);
    }
  }

  /** Every element of `s` may stand before `b`. */
  ghost predicate AllAtMost(c: Comparator, s: seq<Item>, b: Item)
  {
    forall i :: 0 <= i < |s| ==> Compare(c, s[i], b) <= 0
  }

  lemma SortedSnoc(c: Comparator, s: seq<Item>, y: Item)
    requires Sorted(c, s) && AllAtMost(c, s, y)
    ensures Sorted(c, s + [y])
  {
    var r := s + [y];
    forall i, j | 0 <= i < j < |r| ensures Compare(c, r[i], r[j]) <= 0 {
      if j < |s| {
        assert r[i] == s[i] && r[j] == s[j];
      } else {
        assert r[i] == s[i] && r[j] == y;
      }
    }
  }

  lemma {:induction false} InsertAllAtMost(c: Comparator, sorted: seq<Item>, x: Item, b: Item)
    requires AllAtMost(c, sorted, b) && Compare(c, x, b) <= 0
    ensures AllAtMost(c, Insert(c, sorted, x), b)
    decreases |sorted|
  {
    if sorted != [] {
      var n := |sorted|;
      if Compare(c, sorted[n - 1], x) > 0 {
        var front := sorted[..n - 1];
        assert AllAtMost(c, front, b) by {
          forall i | 0 <= i < |front| ensures Compare(c, front[i], b) <= 0 {
            assert front[i] == sorted[i];
          }
        }
        InsertAllAtMost(c, front, x, b);
        var ins := Insert(c, front, x);
        assert Insert(c, sorted, x) == ins + [sorted[n - 1]];
      } else {
        assert Insert(c, sorted, x) == sorted + [x];
      }
    }
  }

  lemma {:induction false} InsertSorted(c: Comparator, sorted: seq<Item>, x: Item)
    requires Sorted(c, sorted)
    ensures Sorted(c, Insert(c, sorted, x))
    decreases |sorted|
  {
    if sorted != [] {
      var n := |sorted|;
      var last := sorted[n - 1];
      var front := sorted[..n - 1];
      assert Sorted(c, front) by {
        forall i, j | 0 <= i < j < |front| ensures Compare(c, front[i], front[j]) <= 0 {
          assert front[i] == sorted[i] && front[j] == sorted[j];
        }
      }
      assert AllAtMost(c, front, last) by {
        forall i | 0 <= i < |front| ensures Compare(c, front[i], last) <= 0 {
          assert front[i] == sorted[i];
        }
      }
      if Compare(c, last, x) > 0 {
        InsertSorted(c, front, x);
        CompareAsymmetric(c, last, x);
        InsertAllAtMost(c, front, x, last);
        SortedSnoc(c, Insert(c, front, x), last);
        assert Insert(c, sorted, x) == Insert(c, front, x) + [last];
      } else {
        assert AllAtMost(c, sorted, x) by {
          forall i | 0 <= i < n ensures Compare(c, sorted[i], x) <= 0 {
            if i < n - 1 {
              CompareAtMostTransitive(c, sorted[i], last, x);
            }
          }
        }
        SortedSnoc(c, sorted, x);
        assert Insert(c, sorted, x) == sorted + [x];
      }
    }
  }

  lemma {:induction false} SortBySorted(c: Comparator, s: seq<Item>)
    ensures Sorted(c, SortBy(c, s))
    decreases |s|
  {
    if s != [] {
      SortBySorted(c, s[..|s| - 1]);
      InsertSorted(c, SortBy(c, s[..|s| - 1]), s[|s| - 1]);
    }
  }

  /** The `description` selection is a permutation of the items whose
      descriptions never decrease. */
  lemma ProjectDescriptionOrdered(items: seq<Item>)
    ensures multiset(Project(Description, items)) == multiset(items)
    ensures forall i, j :: 0 <= i < j < |Project(Description, items)| ==>
              Strings.AtMost(Project(Description, items)[i].description,
                             Project(Description, items)[j].description)
  {
    SortBySorted(ByDescription, items);
  }

  /** Inserting an unpacked item behind unpacked `u` followed by packed `p`
      puts it between the two groups. */
  lemma {:induction false} InsertUnpacked(u: seq<Item>, p: seq<Item>, x: Item)
    requires forall i :: 0 <= i < |u| ==> !u[i].packed
    requires forall i :: 0 <= i < |p| ==> p[i].packed
    requires !x.packed
    ensures Insert(ByPacked, u + p, x) == u + [x] + p
    decreases |p|
  {
    if p == [] {
      assert u + p == u;
      if u != [] {
        assert Compare(ByPacked, u[|u| - 1], x) == 0;
      }
    } else {
      var s := u + p;
      var front := p[..|p| - 1];
      var last := p[|p| - 1];
      assert s[|s| - 1] == last && last.packed;
      assert s[..|s| - 1] == u + front;
      assert Insert(ByPacked, s, x) == Insert(ByPacked, u + front, x) + [last];
      InsertUnpacked(u, front, x);
      assert p == front + [last];
    }
  }

  /** Sorting by the packed comparator is the stable partition: the unpacked
      items in input order, then the packed items in input order. */
  lemma {:induction false} SortByPackedPartitions(s: seq<Item>)
    ensures SortBy(ByPacked, s) == Where(s, false) + Where(s, true)
    decreases |s|
  {
    if s != [] {
      var front := s[..|s| - 1];
      var x := s[|s| - 1];
      assert s == front + [x];
      SortByPackedPartitions(front);
      var u := Where(front, false);
      var p := Where(front, true);
      assert SortBy(ByPacked, s) == Insert(ByPacked, u + p, x);
      WhereConcat(front, [x], false);
      WhereConcat(front, [x], true);
      if x.packed {
        assert Where([x], true) == [x] && Where([x], false) == [];
        InsertPacked(u + p, x);
        assert (u + p) + [x] == (u + []) + (p + [x]);
      } else {
        assert Where([x], false) == [x] && Where([x], true) == [];
        InsertUnpacked(u, p, x);
        assert u + [x] + p == (u + [x]) + (p + []);
      }
    }
  }

  /** A packed item goes to the end. */
  lemma InsertPacked(s: seq<Item>, x: Item)
    requires x.packed
    ensures Insert(ByPacked, s, x) == s + [x]
  {
  }

  /** The `packed` selection: a permutation of the items, every unpacked item
      before every packed one, and each group in input order. */
  lemma ProjectPackedPartitions(items: seq<Item>)
    ensures multiset(Project(Packed, items)) == multiset(items)
    ensures forall i, j :: 0 <= i < j < |Project(Packed, items)| && Project(Packed, items)[i].packed ==>
              Project(Packed, items)[j].packed
    ensures Where(Project(Packed, items), false) == Where(items, false)
    ensures Where(Project(Packed, items), true) == Where(items, true)
  {
    var r := Project(Packed, items);
    SortByPackedPartitions(items);
    var u := Where(items, false);
    var p := Where(items, true);
    WhereConcat(u, p, false);
    WhereConcat(u, p, true);
    WhereAll(u, false);
    WhereAll(p, true);
  }

  /** `.sort()` on a `.slice()` copy: an in-place stable insertion sort of a
      fresh array holding the items; the input sequence is never touched. */
  method SortedCopy(c: Comparator, items: seq<Item>) returns (r: seq<Item>)
    ensures r == SortBy(c, items)
  {
    var a := new Item[|items|](i requires 0 <= i < |items| => items[i]);
    var i := 0;
    while i < a.Length
      invariant 0 <= i <= a.Length
      invariant a[..i] == SortBy(c, items[..i])
      invariant a[i..] == items[i..]
    {
      assert items[..i + 1][..i] == items[..i];
      InsertInPlace(c, a, i);
      i := i + 1;
    }
    assert items[..a.Length] == items;
    r := a[..];
  }

  /** One step of the insertion sort: move `a[i]` left into the sorted prefix
      `a[..i]`, past the elements the comparator puts after it. */
  method InsertInPlace(c: Comparator, a: array<Item>, i: nat)
    requires i < a.Length
    modifies a
    ensures a[..i + 1] == Insert(c, old(a[..i]), old(a[i]))
    ensures a[i + 1..] == old(a[i + 1..])
  {
    var x := a[i];
    ghost var sorted := a[..i];
    ghost var before := a[..];
    var j := MakeRoom(c, a, i);
    a[j] := x;
    InsertionPointAt(c, sorted, j, x);
    InsertAtPoint(c, sorted, x);
    ShiftedPrefix(a[..], sorted, j, x);
    ShiftedSuffix(a[..], before, i);
  }

  /** Shift right by one place every element at the end of `a[..i]` that the
      comparator puts after `a[i]`, and return the hole this leaves. */
  method MakeRoom(c: Comparator, a: array<Item>, i: nat) returns (j: nat)
    requires i < a.Length
    modifies a
    ensures j <= i
    ensures forall k :: 0 <= k < j ==> a[k] == old(a[k])
    ensures forall k :: j < k <= i ==> a[k] == old(a[k - 1])
    ensures forall k :: i < k < a.Length ==> a[k] == old(a[k])
    ensures forall k :: j <= k < i ==> Compare(c, old(a[k]), old(a[i])) > 0
    ensures j == 0 || Compare(c, old(a[j - 1]), old(a[i])) <= 0
  {
    var x := a[i];
    j := i;
    while j > 0 && Compare(c, a[j - 1], x) > 0
      invariant 0 <= j <= i
      invariant forall k :: 0 <= k < j ==> a[k] == old(a[k])
      invariant forall k :: j < k <= i ==> a[k] == old(a[k - 1])
      invariant forall k :: i < k < a.Length ==> a[k] == old(a[k])
      invariant forall k :: j <= k < i ==> Compare(c, old(a[k]), x) > 0
    {
      a[j] := a[j - 1];
      j := j - 1;
    }
  }

  /** Where `Insert` puts `x`: behind the longest prefix whose last element
      may stand before it. */
  function InsertionPoint(c: Comparator, s: seq<Item>, x: Item): (p: nat)
    ensures p <= |s|
    decreases |s|
  {
    if s == [] then 0
    else if Compare(c, s[|s| - 1], x) > 0 then InsertionPoint(c, s[..|s| - 1], x)
    else |s|
  }

  lemma {:induction false} InsertAtPoint(c: Comparator, s: seq<Item>, x: Item)
    ensures Insert(c, s, x) == s[..InsertionPoint(c, s, x)] + [x] + s[InsertionPoint(c, s, x)..]
    decreases |s|
  {
    if s != [] && Compare(c, s[|s| - 1], x) > 0 {
      var front := s[..|s| - 1];
      InsertAtPoint(c, front, x);
      var p := InsertionPoint(c, front, x);
      assert front[..p] == s[..p];
      assert front[p..] + [s[|s| - 1]] == s[p..];
    }
  }

  /** The insertion point is the first of a run of elements, reaching the end,
      that the comparator all puts after `x`. */
  lemma {:induction false} InsertionPointAt(c: Comparator, s: seq<Item>, j: nat, x: Item)
    requires j <= |s|
    requires forall k :: j <= k < |s| ==> Compare(c, s[k], x) > 0
    requires j == 0 || Compare(c, s[j - 1], x) <= 0
    ensures InsertionPoint(c, s, x) == j
    decreases |s|
  {
    if j < |s| {
      var front := s[..|s| - 1];
      InsertionPointAt(c, front, j, x);
    }
  }

  /** The prefix the insertion leaves behind, read off position by position. */
  lemma ShiftedPrefix(b: seq<Item>, sorted: seq<Item>, j: nat, x: Item)
    requires j <= |sorted| < |b| && b[j] == x
    requires forall k :: 0 <= k < j ==> b[k] == sorted[k]
    requires forall k :: j < k <= |sorted| ==> b[k] == sorted[k - 1]
    ensures b[..|sorted| + 1] == sorted[..j] + [x] + sorted[j..]
  {
  }

  lemma ShiftedSuffix(b: seq<Item>, b0: seq<Item>, i: nat)
    requires i < |b| == |b0|
    requires forall k :: i < k < |b| ==> b[k] == b0[k]
    ensures b[i + 1..] == b0[i + 1..]
  {
  }

  /** The sort selection of the `TravelList` component, `"default"` at first. */
  class TravelList {
    var selection: Selection

    constructor ()
      ensures selection == Default
    {
      selection := Default;
    }

    /** `setSelection` from the sort `<select>`. */
    method Select(sel: Selection)
      modifies this
      ensures selection == sel
    {
      selection := sel;
    }

    /** `sortedItems`: the items as they are, or a sorted copy. */
    method SortedItems(items: seq<Item>) returns (r: seq<Item>)
      ensures r == Project(selection, items)
    {
      match selection
      case Default => r := items;
      case Description => r := SortedCopy(ByDescription, items);
      case Packed => r := SortedCopy(ByPacked, items);
    }
  }
}
