/** The `Form` component: two input fields and the submit handler that builds
    a new item and hands it to the list. */
module ItemForm {
  import opened Items
  import ListStore

  /** The guard and the new item object of the submit handler. The guard is an
      exact comparison with the empty string, not a trim: a description made
      of spaces is accepted. The id is the UUID the browser generated. */
  function NewItem(uuid: string, quantity: Value, description: string): (r: Option<Item>)
    ensures r.None? <==> description == ""
    ensures r.Some? ==> r.value.id == Text(uuid) && r.value.quantity == quantity &&
                        r.value.description == description && !r.value.packed
  {
    if description == "" then None
    else Some(Item(Text(uuid), quantity, description, false))
  }

  /** Every description is non-empty. */
  ghost predicate DescriptionsNonEmpty(items: seq<Item>)
  {
    forall k :: 0 <= k < |items| ==> items[k].description != ""
  }

  /** What the form lets through keeps every description in the list non-empty. */
  lemma SubmitKeepsDescriptionsNonEmpty(items: seq<Item>, uuid: string, quantity: Value, description: string)
    requires DescriptionsNonEmpty(items)
    requires NewItem(uuid, quantity, description).Some?
    ensures DescriptionsNonEmpty(items + [NewItem(uuid, quantity, description).value])
  {
  }

  /** The seed list has non-empty descriptions. */
  lemma SeedDescriptionsNonEmpty()
    ensures DescriptionsNonEmpty(ListStore.DummyData)
  {
  }

  /** Toggling and removing keep descriptions non-empty; with the two lemmas
      above, every list the program reaches has them. */
  lemma StoreKeepsDescriptionsNonEmpty(items: seq<Item>, id: Value)
    requires DescriptionsNonEmpty(items)
    ensures DescriptionsNonEmpty(ListStore.ToggledById(items, id))
    ensures DescriptionsNonEmpty(ListStore.RemovedById(items, id))
  {
    var r := ListStore.RemovedById(items, id);
    forall k | 0 <= k < |r| ensures r[k].description != "" {
      assert r[k] in r;
    }
  }

  class Form {
    var quantity: Value
    var description: string

    /** The fields start as the string "1" and the empty string. */
    constructor ()
      ensures quantity == Text("1") && description == ""
    {
      quantity := Text("1");
      description := "";
    }

    /** `setQuantity` from the `<select>`. */
    method SetQuantity(q: Value)
      modifies this
      ensures quantity == q && description == old(description)
    {
      quantity := q;
    }

    /** `setDescription` from the text input. */
    method SetDescription(d: string)
      modifies this
      ensures description == d && quantity == old(quantity)
    {
      description := d;
    }

    /** `handleOnAddSubmit`. With an empty description nothing happens.
        Otherwise exactly one unpacked item with id `uuid` and the current
        fields is appended to the list, and both fields are reset to the empty
        string (the quantity too: not back to "1"). */
    method Submit(app: ListStore.App, uuid: string) returns (added: bool)
      modifies this, app
      ensures added <==> old(description) != ""
      ensures added ==> app.items == old(app.items) + [Item(Text(uuid), old(quantity), old(description), false)]
      ensures added ==> quantity == Text("") && description == ""
      ensures !added ==> app.items == old(app.items)
      ensures !added ==> quantity == old(quantity) && description == old(description)
    {
      var candidate := NewItem(uuid, quantity, description);
      if candidate.None? {
        return false;
      }
      app.AddItem(candidate.value);
      quantity := Text("");
      description := "";
      added := true;
    }
  }
}
