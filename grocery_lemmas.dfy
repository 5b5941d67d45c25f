/** Properties that relate several operations of the grocery store, and the
    remove_item defect set against its intended behaviour. */
module GroceryLemmas {
  import opened PyDict
  import opened Groceries
  import opened Store

  /** Appending a fresh key and then dropping it gives back the list. */
  lemma {:induction false} WithoutAppended(s: seq<string>, k: string)
    requires k !in s
    ensures Without(s + [k], k) == s
  {
    if s != [] {
      assert (s + [k])[1..] == s[1..] + [k];
      WithoutAppended(s[1..], k);
    }
  }

  /** add_item followed by remove_item of the same name restores the
      dictionary exactly, key order included. */
  lemma AddThenRemoveRestores(d: Dict<Record>, catalog: set<string>, name: string, details: Value)
    requires d.Valid()
    requires AddError(d, catalog, StrV(name), details).None?
    ensures RemoveError(AddNext(d, catalog, StrV(name), details), StrV(name)).None?
    ensures RemoveNext(AddNext(d, catalog, StrV(name), details), StrV(name)) == d
  {
  }

  /** A second add_item of a name that was just added is rejected with the
      "already exists" error whatever its details, and changes nothing. */
  lemma ReAddRejected(d: Dict<Record>, catalog: set<string>, name: string, details: Value, again: Value)
    requires d.Valid()
    requires AddError(d, catalog, StrV(name), details).None?
    ensures var added := AddNext(d, catalog, StrV(name), details);
            && AddError(added, catalog, StrV(name), again) == Some(AlreadyExists)
            && AddNext(added, catalog, StrV(name), again) == added
  {
  }

  /** update_quantity is update_item with the stored record's quantity
      replaced, on a store whose records are well-formed. */
  lemma UpdateQuantityIsUpdateItem(d: Dict<Record>, catalog: set<string>, name: string, quantity: Value)
    requires StoreInvariant(d, catalog)
    requires name in d.entries && IsInt(quantity)
    ensures UpdateQuantityError(d, StrV(name), quantity)
            == UpdateError(d, catalog, StrV(name), DictV(WithQuantity(d.entries[name], quantity)))
    ensures UpdateQuantityNext(d, StrV(name), quantity)
            == UpdateNext(d, catalog, StrV(name), DictV(WithQuantity(d.entries[name], quantity)))
  {
  }

  /** Setting the quantity twice leaves only the second value. */
  lemma UpdateQuantityLastWins(d: Dict<Record>, item: Value, q1: Value, q2: Value)
    requires d.Valid()
    requires IsInt(q1) && IsInt(q2)
    ensures UpdateQuantityNext(UpdateQuantityNext(d, item, q1), item, q2)
            == UpdateQuantityNext(d, item, q2)
  {
    if UpdateQuantityError(d, item, q1).None? {
      var rec := d.entries[item.s];
      var once := UpdateQuantityNext(d, item, q1);
      assert once == Dict(d.keys, d.entries[item.s := rec[QUANTITY := q1]]);
      assert UpdateQuantityError(once, item, q2).None?;
      assert rec[QUANTITY := q1][QUANTITY := q2] == rec[QUANTITY := q2];
      assert UpdateQuantityNext(once, item, q2)
             == Dict(d.keys, d.entries[item.s := rec[QUANTITY := q2]])
             == UpdateQuantityNext(d, item, q2);
    }
  }

  /** Replacing a record by itself changes nothing. */
  lemma UpdateWithSameRecordIsIdentity(d: Dict<Record>, catalog: set<string>, name: string)
    requires StoreInvariant(d, catalog) && name in d.entries
    ensures UpdateError(d, catalog, StrV(name), DictV(d.entries[name])).None?
    ensures UpdateNext(d, catalog, StrV(name), DictV(d.entries[name])) == d
  {
  }

  /** The remove_item defect: the written code and the intended guard agree
      on every input except a str name that is not stored, where the code
      raises KeyError from `del` instead of the "not in grocery list"
      ValueError; either way nothing is removed. */
  lemma RemoveGuardIsDead(d: Dict<Record>, item: Value)
    requires d.Valid()
    ensures RemoveError(d, item) != RemoveErrorIntended(d, item)
            <==> item.StrV? && item.s !in d.entries
    ensures item.StrV? && item.s !in d.entries ==>
              && RemoveError(d, item).value.Raised() == KeyError
              && RemoveErrorIntended(d, item).value.Raised() == ValueError
              && RemoveNext(d, item) == d
  {
  }

  /** The input that shows it: removing "item2" from the seeded store. */
  lemma RemoveAbsentOnSeedRaisesKeyError()
    ensures var seed := Dict(["item1"], map["item1" := SeedRecord()]);
            && RemoveError(seed, StrV("item2")) == Some(MissingKey)
            && RemoveErrorIntended(seed, StrV("item2")) == Some(NotInList)
  {
  }

  /** The seeded store lists one type, baked goods. */
  method SeedTypesScenario(catalog: set<string>)
    requires BAKED_GOODS in catalog
  {
    var store := new GroceryStore(catalog);
    assert store.groceryList.entries["item1"][GROC_TYPE] == StrV(BAKED_GOODS);
    assert store.GetTypes() == {BAKED_GOODS};
  }

  /** item1's quantity 10 set to 3; its other fields stay. */
  method SeedQuantityScenario(catalog: set<string>)
    requires BAKED_GOODS in catalog
  {
    var store := new GroceryStore(catalog);
    var err := store.UpdateQuantity(StrV("item1"), IntV(3));
    assert err == None;
    var details := store.GetDetails("item1");
    assert details.Ok? && details.value[QUANTITY] == IntV(3);
    assert details.value[EXPIRATION_DATE] == StrV("10-20-2022");
  }

  /** A second item goes after the first; adding it again is rejected; an
      absent name cannot be removed and the store stays as it was. */
  method SeedAddRemoveScenario(catalog: set<string>)
    requires BAKED_GOODS in catalog && "produce" in catalog
  {
    var store := new GroceryStore(catalog);
    var produce := map[GROC_TYPE := StrV("produce"), QUANTITY := IntV(5),
                       EXPIRATION_DATE := StrV("11-01-2022")];
    assert "item2" != "item1";
    var err := store.AddItem(StrV("item2"), DictV(produce));
    assert err == None;
    assert store.GetItems() == ["item1", "item2"];

    err := store.AddItem(StrV("item2"), OtherV);
    assert err == Some(AlreadyExists);

    var before := store.groceryList;
    assert "item3" !in before.entries;
    err := store.RemoveItem(StrV("item3"));
    assert err == Some(MissingKey) && store.groceryList == before;
  }
}
