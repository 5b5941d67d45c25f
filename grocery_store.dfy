/** The module-level `grocery_list` of db/groceries.py as an object: the
    dictionary is a field the mutators reassign, the type catalog that
    `gtyp.get_groc_types()` returns is fixed when the store is made. Each
    mutator returns the error it raises (`None` when it returns normally) and
    is proved against the error and next-state functions of module
    Groceries. */
module Store {
  import opened PyDict
  import opened Groceries

  class GroceryStore {
    /** The valid grocery type tags. */
    const catalog: set<string>
    /** Item name to record, in insertion order. */
    var groceryList: Dict<Record>

    /** Every stored record passed validation, and the key order lists each
        stored name once. */
    predicate Valid()
      reads this
    {
      StoreInvariant(groceryList, catalog)
    }

    /** The store as the module starts: "item1", baked goods, 10, "10-20-2022". */
    constructor (catalog: set<string>)
      requires BAKED_GOODS in catalog
      ensures Valid() && this.catalog == catalog
      ensures groceryList.keys == ["item1"]
      ensures groceryList.entries == map["item1" := SeedRecord()]
    {
      this.catalog := catalog;
      groceryList := Dict(["item1"], map["item1" := SeedRecord()]);
    }

    /** get_items: the stored names, each once, in insertion order. */
    function GetItems(): (r: seq<string>)
      reads this
      requires Valid()
      ensures r == groceryList.keys
      ensures Distinct(r)
      ensures forall k :: k in r <==> Exists(k)
    {
      groceryList.keys
    }

    /** get_grocery_list: every stored name with its record, as a copy. */
    function GetGroceryList(): (r: map<string, Record>)
      reads this
      requires Valid()
      ensures forall k :: k in r <==> k in GetItems()
      ensures forall k :: k in r ==> GetDetails(k) == Ok(r[k]) && WellFormed(r[k], catalog)
    {
      groceryList.entries
    }

    /** exists: whether the name is stored. */
    function Exists(item: string): (b: bool)
      reads this
      requires Valid()
      ensures b <==> item in groceryList.keys
    {
      item in groceryList.entries
    }

    /** get_details: the stored record, or the KeyError of the lookup. */
    function GetDetails(item: string): (r: Result<Record>)
      reads this
      requires Valid()
      ensures r.Ok? <==> Exists(item)
      ensures r.Ok? ==> r.value == groceryList.entries[item] && WellFormed(r.value, catalog)
      ensures r.Err? ==> r.error == MissingKey && r.error.Raised() == KeyError
    {
      if item in groceryList.entries then Ok(groceryList.entries[item]) else Err(MissingKey)
    }

    /** get_types: the distinct type tags of the stored records, all of them
        from the catalog. */
    function GetTypes(): (r: set<string>)
      reads this
      requires Valid()
      ensures r <= catalog
      ensures forall t :: t in r <==>
                (exists k :: k in groceryList.entries && groceryList.entries[k][GROC_TYPE] == StrV(t))
    {
      set k | k in groceryList.entries :: groceryList.entries[k][GROC_TYPE].s
    }

    /** The checks shared by add_item and update_item once the name has been
        accepted, with the `for field in REQUIRED_FIELDS` loop. */
    method CheckDetails(details: Value) returns (err: Option<Error>)
      ensures err == DetailsError(details, catalog)
    {
      if !details.DictV? {
        return Some(WrongDetailsType);
      }
      var fields := details.fields;
      for n := 0 to |REQUIRED_FIELDS|
        invariant forall j :: 0 <= j < n ==> REQUIRED_FIELDS[j] in fields
      {
        var field := REQUIRED_FIELDS[n];
        if field !in fields {
          return Some(MissingField(field));
        }
      }
      assert HasRequiredFields(fields) by {
        assert REQUIRED_FIELDS[0] == GROC_TYPE && REQUIRED_FIELDS[1] == QUANTITY
          && REQUIRED_FIELDS[2] == EXPIRATION_DATE;
      }
      if !InCatalog(fields[GROC_TYPE], catalog) {
        return Some(InvalidGroceryType);
      }
      if !IsInt(fields[QUANTITY]) {
        return Some(WrongQuantityType);
      }
      return None;
    }

    /** add_item. */
    method AddItem(item: Value, details: Value) returns (err: Option<Error>)
      requires Valid()
      modifies this
      ensures Valid()
      ensures err == AddError(old(groceryList), catalog, item, details)
      ensures groceryList == AddNext(old(groceryList), catalog, item, details)
    {
      if !item.StrV? {
        return Some(WrongItemType);
      }
      if Exists(item.s) {
        return Some(AlreadyExists);
      }
      err := CheckDetails(details);
      if err.Some? {
        return;
      }
      groceryList := groceryList.Put(item.s, details.fields);
    }

    /** remove_item, as written: the name's existence is never tested, so an
        absent name fails with the KeyError of `del`. */
    method RemoveItem(item: Value) returns (err: Option<Error>)
      requires Valid()
      modifies this
      ensures Valid()
      ensures err == RemoveError(old(groceryList), item)
      ensures groceryList == RemoveNext(old(groceryList), item)
    {
      if !item.StrV? {
        return Some(WrongItemType);
      }
      // The source's guard `if not exists:` tests the function object, which
      // is always truthy, so no existence check happens here.
      if item.s !in groceryList.entries {
        return Some(MissingKey);
      }
      groceryList := groceryList.Delete(item.s);
      err := None;
    }

    /** update_item. */
    method UpdateItem(item: Value, details: Value) returns (err: Option<Error>)
      requires Valid()
      modifies this
      ensures Valid()
      ensures err == UpdateError(old(groceryList), catalog, item, details)
      ensures groceryList == UpdateNext(old(groceryList), catalog, item, details)
    {
      if !item.StrV? {
        return Some(WrongItemType);
      }
      if !Exists(item.s) {
        return Some(NotInList);
      }
      err := CheckDetails(details);
      if err.Some? {
        return;
      }
      groceryList := groceryList.Put(item.s, details.fields);
    }

    /** update_quantity. */
    method UpdateQuantity(item: Value, quantity: Value) returns (err: Option<Error>)
      requires Valid()
      modifies this
      ensures Valid()
      ensures err == UpdateQuantityError(old(groceryList), item, quantity)
      ensures groceryList == UpdateQuantityNext(old(groceryList), item, quantity)
    {
      if !item.StrV? {
        return Some(WrongItemType);
      }
      if !Exists(item.s) {
        return Some(NotInList);
      }
      if !IsInt(quantity) {
        return Some(WrongQuantityType);
      }
      var rec := groceryList.entries[item.s];
      groceryList := groceryList.Put(item.s, rec[QUANTITY := quantity]);
      err := None;
    }
  }
}
