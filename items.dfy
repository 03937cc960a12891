/** The values the travel list is made of: a list entry, the JavaScript
    primitives in its fields, and the `packed` filter that both the sort and
    the statistics use. */
module Items {

  /** A JavaScript primitive as the list stores it. Ids are numbers in the
      seed data and UUID strings for items added through the form; quantities
      are numbers in the seed data and strings taken from the `<select>`.
      Strict equality (`===`) between such values is equality of this
      datatype: the number 1 and the string "1" differ. */
  datatype Value = Num(n: int) | Text(s: string)

  /** One entry of the list: `{id, quantity, description, packed}`. */
  datatype Item = Item(id: Value, quantity: Value, description: string, packed: bool)

  datatype Option<T> = None | Some(value: T)

  /** `{ ...item, packed: !item.packed }`: a new item, the old one untouched. */
  function Flipped(item: Item): (r: Item)
    ensures r.id == item.id && r.quantity == item.quantity && r.description == item.description
    ensures r.packed != item.packed
  {
    item.(packed := !item.packed)
  }

  /** The items whose `packed` flag equals `packed`, in input order. With
      `packed == true` this is `items.filter((item) => item.packed)`, the
      truthiness test of the statistics (`packed` is always a boolean here).
      The program has no filter for `false`: that instance is the reference
      against which the packed sort is characterised. */
  function Where(s: seq<Item>, packed: bool): (r: seq<Item>)
    ensures |r| <= |s|
    ensures forall i :: 0 <= i < |r| ==> r[i].packed == packed
  {
    if s == [] then []
    else (if s[0].packed == packed then [s[0]] else []) + Where(s[1..], packed)
  }

  /** `Where` keeps exactly the elements with the flag asked for. */
  lemma {:induction false} WhereMembers(s: seq<Item>, packed: bool)
    ensures forall x :: x in Where(s, packed) <==> x in s && x.packed == packed
  {
    if s != [] {
      WhereMembers(s[1..], packed);
      assert s == [s[0]] + s[1..];
    }
  }

  /** `r` is `s` with some elements dropped and the rest in their original order. */
  ghost predicate IsSubsequence(r: seq<Item>, s: seq<Item>)
    decreases |s|
  {
    if r == [] then true
    else if s == [] then false
    else (r[0] == s[0] && IsSubsequence(r[1..], s[1..])) || IsSubsequence(r, s[1..])
  }

  /** Filtering keeps the order of what it keeps. */
  lemma {:induction false} WhereIsSubsequence(s: seq<Item>, packed: bool)
    ensures IsSubsequence(Where(s, packed), s)
  {
    if s != [] {
      WhereIsSubsequence(s[1..], packed);
      if s[0].packed == packed {
        assert Where(s, packed) == [s[0]] + Where(s[1..], packed);
      } else {
        assert Where(s, packed) == Where(s[1..], packed);
      }
    }
  }

  lemma {:induction false} WhereConcat(s: seq<Item>, t: seq<Item>, packed: bool)
    ensures Where(s + t, packed) == Where(s, packed) + Where(t, packed)
  {
    if s == [] {
      assert s + t == t;
    } else {
      assert (s + t)[1..] == s[1..] + t;
      WhereConcat(s[1..], t, packed);
    }
  }

  /** The elements with flag `packed` together with the others are all of `s`. */
  lemma {:induction false} WhereSplits(s: seq<Item>)
    ensures multiset(Where(s, false)) + multiset(Where(s, true)) == multiset(s)
  {
    if s != [] {
      WhereSplits(s[1..]);
      assert s == [s[0]] + s[1..];
      assert multiset(s) == multiset{s[0]} + multiset(s[1..]);
      if s[0].packed {
        assert Where(s, true) == [s[0]] + Where(s[1..], true);
        assert Where(s, false) == Where(s[1..], false);
      } else {
        assert Where(s, false) == [s[0]] + Where(s[1..], false);
        assert Where(s, true) == Where(s[1..], true);
      }
    }
  }

  /** Filtering a sequence all of whose elements pass keeps it whole. */
  lemma {:induction false} WhereAll(s: seq<Item>, packed: bool)
    requires forall i :: 0 <= i < |s| ==> s[i].packed == packed
    ensures Where(s, packed) == s
    ensures Where(s, !packed) == []
  {
    if s != [] {
      WhereAll(s[1..], packed);
    }
  }
}
