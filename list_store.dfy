/** The list state held by the `App` component and its four event handlers:
    add, toggle-packed by id, remove by id, and clear. Each handler replaces
    the whole sequence; the replacement is given by a pure function. Ids are
    not guaranteed unique by the program, so the properties speak of every
    item whose id matches; where uniqueness matters it is a precondition. */
module ListStore {
  import opened Items

  /** The seed list the component starts with. */
  const DummyData: seq<Item> := [
    Item(Num(1), Num(4), "socks", false),
    Item(Num(2), Num(6), "passport", false),
    Item(Num(3), Num(2), "bags", false)
  ]

  /** `items.map((item) => item.id === id ? { ...item, packed: !item.packed } : item)` */
  function ToggledById(items: seq<Item>, id: Value): (r: seq<Item>)
    ensures |r| == |items|
    ensures forall i :: 0 <= i < |items| ==>
              r[i].id == items[i].id && r[i].quantity == items[i].quantity &&
              r[i].description == items[i].description
    ensures forall i :: 0 <= i < |items| ==>
              r[i].packed == (if items[i].id == id then !items[i].packed else items[i].packed)
  {
    if items == [] then []
    else [if items[0].id == id then Flipped(items[0]) else items[0]] + ToggledById(items[1..], id)
  }

  /** `items.filter((item) => item.id !== id)` */
  function RemovedById(items: seq<Item>, id: Value): (r: seq<Item>)
    ensures forall x :: x in r <==> x in items && x.id != id
    ensures |r| == |items| - Occurrences(items, id)
  {
    if items == [] then []
    else (if items[0].id == id then [] else [items[0]]) + RemovedById(items[1..], id)
  }

  /** The number of items whose id is `id`. */
  function Occurrences(items: seq<Item>, id: Value): (n: nat)
    ensures n <= |items|
  {
    if items == [] then 0
    else (if items[0].id == id then 1 else 0) + Occurrences(items[1..], id)
  }

  /** No two positions hold the same id. */
  ghost predicate UniqueIds(items: seq<Item>)
  {
    forall i, j :: 0 <= i < j < |items| ==> items[i].id != items[j].id
  }

  /** An id occurs nowhere exactly when it is counted zero times. */
  lemma {:induction false} OccurrencesZero(items: seq<Item>, id: Value)
    ensures Occurrences(items, id) == 0 <==> forall k :: 0 <= k < |items| ==> items[k].id != id
  {
    if items != [] {
      OccurrencesZero(items[1..], id);
      if forall k :: 0 <= k < |items[1..]| ==> items[1..][k].id != id {
        assert forall k :: 1 <= k < |items| ==> items[k].id != id by {
          forall k | 1 <= k < |items| ensures items[k].id != id {
            assert items[k] == items[1..][k - 1];
          }
        }
      }
    }
  }

  /** With unique ids an id occurs at most once, and once if it is present. */
  lemma {:induction false} OccurrencesUnique(items: seq<Item>, id: Value)
    requires UniqueIds(items)
    ensures Occurrences(items, id) <= 1
    ensures Occurrences(items, id) == 1 <==> exists k :: 0 <= k < |items| && items[k].id == id
  {
    OccurrencesZero(items, id);
    if items != [] {
      assert UniqueIds(items[1..]) by {
        forall i, j | 0 <= i < j < |items[1..]| ensures items[1..][i].id != items[1..][j].id {
          assert items[1..][i] == items[i + 1] && items[1..][j] == items[j + 1];
        }
      }
      OccurrencesUnique(items[1..], id);
      if items[0].id == id {
        OccurrencesZero(items[1..], id);
        forall k | 0 <= k < |items[1..]| ensures items[1..][k].id != id {
          assert items[1..][k] == items[k + 1];
        }
      }
    }
  }

  // ---- toggle ----

  /** Toggling the same id twice restores the original sequence. */
  lemma {:induction false} ToggleTwiceRestores(items: seq<Item>, id: Value)
    ensures ToggledById(ToggledById(items, id), id) == items
  {
    var once := ToggledById(items, id);
    var twice := ToggledById(once, id);
    assert |twice| == |items|;
    forall i | 0 <= i < |items| ensures twice[i] == items[i] {
      assert once[i].id == items[i].id;
    }
  }

  /** Toggling an id that no item has changes nothing. */
  lemma {:induction false} ToggleAbsentUnchanged(items: seq<Item>, id: Value)
    requires forall k :: 0 <= k < |items| ==> items[k].id != id
    ensures ToggledById(items, id) == items
  {
    var r := ToggledById(items, id);
    forall i | 0 <= i < |items| ensures r[i] == items[i] {
    }
  }

  /** Toggling keeps every id where it was, so it keeps ids unique. */
  lemma ToggleKeepsUniqueIds(items: seq<Item>, id: Value)
    requires UniqueIds(items)
    ensures UniqueIds(ToggledById(items, id))
  {
  }

  // ---- remove ----

  /** Removing keeps the remaining items in their relative order. */
  lemma {:induction false} RemovedIsSubsequence(items: seq<Item>, id: Value)
    ensures IsSubsequence(RemovedById(items, id), items)
  {
    if items != [] {
      RemovedIsSubsequence(items[1..], id);
      if items[0].id != id {
        assert RemovedById(items, id) == [items[0]] + RemovedById(items[1..], id);
      } else {
        assert RemovedById(items, id) == RemovedById(items[1..], id);
      }
    }
  }

  /** Removing an id that no item has changes nothing. */
  lemma {:induction false} RemoveAbsentUnchanged(items: seq<Item>, id: Value)
    requires forall k :: 0 <= k < |items| ==> items[k].id != id
    ensures RemovedById(items, id) == items
  {
    if items != [] {
      RemoveAbsentUnchanged(items[1..], id);
      assert items == [items[0]] + items[1..];
    }
  }

  /** After a removal no item has that id, so removing again changes nothing. */
  lemma RemoveIdempotent(items: seq<Item>, id: Value)
    ensures RemovedById(RemovedById(items, id), id) == RemovedById(items, id)
  {
    var r := RemovedById(items, id);
    forall k | 0 <= k < |r| ensures r[k].id != id {
      assert r[k] in r;
    }
    RemoveAbsentUnchanged(r, id);
  }

  /** With unique ids, removing a present id shortens the list by exactly one. */
  lemma RemovePresentUnique(items: seq<Item>, id: Value)
    requires UniqueIds(items)
    requires exists k :: 0 <= k < |items| && items[k].id == id
    ensures |RemovedById(items, id)| == |items| - 1
  {
    OccurrencesUnique(items, id);
  }

  /** Removal keeps ids unique. */
  lemma {:induction false} RemoveKeepsUniqueIds(items: seq<Item>, id: Value)
    requires UniqueIds(items)
    ensures UniqueIds(RemovedById(items, id))
  {
    if items != [] {
      var tail := items[1..];
      assert UniqueIds(tail) by {
        forall i, j | 0 <= i < j < |tail| ensures tail[i].id != tail[j].id {
          assert tail[i] == items[i + 1] && tail[j] == items[j + 1];
        }
      }
      RemoveKeepsUniqueIds(tail, id);
      var rest := RemovedById(tail, id);
      if items[0].id != id {
        var r := [items[0]] + rest;
        assert RemovedById(items, id) == r;
        forall j | 0 < j < |r| ensures r[0].id != r[j].id {
          assert r[j] in rest;
          var k :| 0 <= k < |tail| && tail[k] == r[j];
          assert tail[k] == items[k + 1];
        }
      }
    }
  }

  // ---- add ----

  /** Appending an item with a fresh id keeps ids unique. */
  lemma AddFreshKeepsUniqueIds(items: seq<Item>, newItem: Item)
    requires UniqueIds(items)
    requires forall k :: 0 <= k < |items| ==> items[k].id != newItem.id
    ensures UniqueIds(items + [newItem])
  {
  }

  /** The `items` state of the `App` component. Every handler replaces the
      whole sequence (`setItems`), never an item in place. */
  class App {
    var items: seq<Item>

    constructor ()
      ensures items == DummyData
    {
      items := DummyData;
    }

    /** `handleAddItem`: append to the end. */
    method AddItem(newItem: Item)
      modifies this
      ensures items == old(items) + [newItem]
      ensures |items| == |old(items)| + 1
      ensures forall k :: 0 <= k < |old(items)| ==> items[k] == old(items)[k]
    {
      items := items + [newItem];
    }

    /** `handleTogglePacked`: flip `packed` on every item whose id matches. */
    method TogglePacked(id: Value)
      modifies this
      ensures items == ToggledById(old(items), id)
    {
      items := ToggledById(items, id);
    }

    /** `handleRemoveItem`: drop every item whose id matches. */
    method RemoveItem(id: Value)
      modifies this
      ensures items == RemovedById(old(items), id)
    {
      items := RemovedById(items, id);
    }

    /** `handleClearList`: empty the list, whatever it held. */
    method ClearList()
      modifies this
      ensures items == []
    {
      items := [];
    }
  }
}
