/** The grocery record store of db/groceries.py, as values: the Python values a
    caller can pass in, the records kept per item, the errors the operations
    raise, and for every mutator the error it raises on a given state and
    input and the dictionary it leaves behind. The class in grocery_store.dfy
    runs these operations on the store's state. */
module Groceries {
  import opened PyDict

  /** The Python values the operations inspect. A `bool` is kept apart from an
      `int` because Python's `isinstance(True, int)` holds; everything the
      code only stores or compares (floats, None, lists, ...) is `OtherV`. */
  datatype Value =
    | StrV(s: string)
    | IntV(i: int)
    | BoolV(b: bool)
    | DictV(fields: map<string, Value>)
    | OtherV

  /** One grocery record: field name to value. */
  type Record = map<string, Value>

  const GROC_TYPE: string := "grocery_type"
  const QUANTITY: string := "quantity"
  const EXPIRATION_DATE: string := "expiration_date"

  /** The fields every record must have, in the order they are checked. */
  const REQUIRED_FIELDS: seq<string> := [GROC_TYPE, QUANTITY, EXPIRATION_DATE]

  /** The type tag of the seeded item; `groc_types` is not part of this model. */
  const BAKED_GOODS: string := "baked_goods"

  datatype Option<T> = None | Some(value: T)

  /** The Python exception class an error is raised as. */
  datatype PyException = TypeError | ValueError | KeyError

  /** Why an operation failed, one constructor per `raise` (and one for the
      `KeyError` of a lookup or `del` on a missing key). */
  datatype Error =
    | WrongItemType            // item is not a str
    | AlreadyExists            // add_item on a present name
    | NotInList                // update_item / update_quantity on an absent name
    | WrongDetailsType         // details is not a dict
    | MissingField(field: string)
    | InvalidGroceryType       // grocery_type not in the catalog
    | WrongQuantityType        // quantity is not an int
    | MissingKey               // dict lookup or del on an absent key
  {
    function Raised(): PyException
    {
      match this
      case WrongItemType => TypeError
      case WrongDetailsType => TypeError
      case WrongQuantityType => TypeError
      case MissingKey => KeyError
      case _ => ValueError
    }
  }

  datatype Result<T> = Ok(value: T) | Err(error: Error)

  /** `isinstance(v, int)`, which a Python bool also passes. */
  predicate IsInt(v: Value)
  {
    v.IntV? || v.BoolV?
  }

  /** `v in gtyp.get_groc_types()` for a catalog of strings. */
  predicate InCatalog(v: Value, catalog: set<string>)
  {
    v.StrV? && v.s in catalog
  }

  predicate HasRequiredFields(rec: Record)
  {
    GROC_TYPE in rec && QUANTITY in rec && EXPIRATION_DATE in rec
  }

  /** A record every validation check accepts. */
  predicate WellFormed(rec: Record, catalog: set<string>)
  {
    && HasRequiredFields(rec)
    && InCatalog(rec[GROC_TYPE], catalog)
    && IsInt(rec[QUANTITY])
  }

  /** The store's invariant: an ordered dictionary of well-formed records. */
  predicate StoreInvariant(d: Dict<Record>, catalog: set<string>)
  {
    && d.Valid()
    && forall k :: k in d.entries ==> WellFormed(d.entries[k], catalog)
  }

  /** The field the `for field in REQUIRED_FIELDS` loop stops at: the first of
      `fields` that `rec` lacks, if any. */
  function FirstMissing(fields: seq<string>, rec: Record): (r: Option<string>)
    ensures r.None? <==> forall f :: f in fields ==> f in rec
    ensures r.Some? ==> (exists i :: 0 <= i < |fields| && fields[i] == r.value && r.value !in rec
                          && forall j :: 0 <= j < i ==> fields[j] in rec)
    decreases |fields|
  {
    if fields == [] then None
    else if fields[0] !in rec then Some(fields[0])
    else
      var r := FirstMissing(fields[1..], rec);
      assert r.Some? ==> (exists i :: 0 <= i < |fields[1..]| && fields[1..][i] == r.value
                            && forall j :: 0 <= j < i ==> fields[1..][j] in rec);
      assert forall f :: f in fields ==> f == fields[0] || f in fields[1..];
      r
  }

  /** The checks add_item and update_item make on `details`, in their order:
      it is a dict, every required field is present, the type is in the
      catalog, the quantity is an int. */
  function DetailsError(details: Value, catalog: set<string>): (r: Option<Error>)
    ensures r.None? <==> details.DictV? && WellFormed(details.fields, catalog)
    ensures !details.DictV? ==> r == Some(WrongDetailsType)
    ensures details.DictV? && GROC_TYPE !in details.fields ==>
              r == Some(MissingField(GROC_TYPE))
    ensures details.DictV? && GROC_TYPE in details.fields && QUANTITY !in details.fields ==>
              r == Some(MissingField(QUANTITY))
    ensures (details.DictV? && GROC_TYPE in details.fields && QUANTITY in details.fields
             && EXPIRATION_DATE !in details.fields) ==>
              r == Some(MissingField(EXPIRATION_DATE))
    ensures (details.DictV? && HasRequiredFields(details.fields)
             && !InCatalog(details.fields[GROC_TYPE], catalog)) ==>
              r == Some(InvalidGroceryType)
    ensures (details.DictV? && HasRequiredFields(details.fields)
             && InCatalog(details.fields[GROC_TYPE], catalog) && !IsInt(details.fields[QUANTITY])) ==>
              r == Some(WrongQuantityType)
  {
    if !details.DictV? then Some(WrongDetailsType)
    else match FirstMissing(REQUIRED_FIELDS, details.fields)
      case Some(f) =>
        assert |REQUIRED_FIELDS| == 3 && REQUIRED_FIELDS[0] == GROC_TYPE
          && REQUIRED_FIELDS[1] == QUANTITY && REQUIRED_FIELDS[2] == EXPIRATION_DATE;
        Some(MissingField(f))
      case None =>
        assert HasRequiredFields(details.fields) by {
          assert GROC_TYPE in REQUIRED_FIELDS && QUANTITY in REQUIRED_FIELDS
            && EXPIRATION_DATE in REQUIRED_FIELDS;
        }
        if !InCatalog(details.fields[GROC_TYPE], catalog) then Some(InvalidGroceryType)
        else if !IsInt(details.fields[QUANTITY]) then Some(WrongQuantityType)
        else None
  }

  /** add_item's checks, in order: the name is a str, it is not yet stored,
      then the details checks. */
  function AddError(d: Dict<Record>, catalog: set<string>, item: Value, details: Value): (r: Option<Error>)
    ensures r.None? <==>
              item.StrV? && item.s !in d.entries && details.DictV? && WellFormed(details.fields, catalog)
    ensures !item.StrV? ==> r == Some(WrongItemType)
    ensures item.StrV? && item.s in d.entries ==> r == Some(AlreadyExists)
    ensures item.StrV? && item.s !in d.entries ==> r == DetailsError(details, catalog)
  {
    if !item.StrV? then Some(WrongItemType)
    else if item.s in d.entries then Some(AlreadyExists)
    else DetailsError(details, catalog)
  }

  /** update_item's checks: the same as add_item's except that the name must
      already be stored. */
  function UpdateError(d: Dict<Record>, catalog: set<string>, item: Value, details: Value): (r: Option<Error>)
    ensures r.None? <==>
              item.StrV? && item.s in d.entries && details.DictV? && WellFormed(details.fields, catalog)
    ensures !item.StrV? ==> r == Some(WrongItemType)
    ensures item.StrV? && item.s !in d.entries ==> r == Some(NotInList)
    ensures item.StrV? && item.s in d.entries ==> r == DetailsError(details, catalog)
  {
    if !item.StrV? then Some(WrongItemType)
    else if item.s !in d.entries then Some(NotInList)
    else DetailsError(details, catalog)
  }

  /** update_quantity's checks: the name is a stored str, the quantity an int. */
  function UpdateQuantityError(d: Dict<Record>, item: Value, quantity: Value): (r: Option<Error>)
    ensures r.None? <==> item.StrV? && item.s in d.entries && IsInt(quantity)
    ensures !item.StrV? ==> r == Some(WrongItemType)
    ensures item.StrV? && item.s !in d.entries ==> r == Some(NotInList)
    ensures item.StrV? && item.s in d.entries && !IsInt(quantity) ==> r == Some(WrongQuantityType)
  {
    if !item.StrV? then Some(WrongItemType)
    else if item.s !in d.entries then Some(NotInList)
    else if !IsInt(quantity) then Some(WrongQuantityType)
    else None
  }

  /** remove_item as written: its "not in grocery list" guard tests the
      function object `exists`, which is always truthy, so the guard never
      fires and an absent name fails only when `del` raises `KeyError`. */
  function RemoveError(d: Dict<Record>, item: Value): (r: Option<Error>)
    ensures r.None? <==> item.StrV? && item.s in d.entries
    ensures !item.StrV? ==> r == Some(WrongItemType)
    ensures item.StrV? && item.s !in d.entries ==> r == Some(MissingKey)
    ensures r != Some(NotInList)
  {
    if !item.StrV? then Some(WrongItemType)
    else if item.s !in d.entries then Some(MissingKey)
    else None
  }

  /** remove_item as its guard intends: an absent name raises the same
      "not in grocery list" ValueError that update_item raises. */
  function RemoveErrorIntended(d: Dict<Record>, item: Value): (r: Option<Error>)
    ensures r.None? <==> item.StrV? && item.s in d.entries
    ensures !item.StrV? ==> r == Some(WrongItemType) && r.value.Raised() == TypeError
    ensures item.StrV? && item.s !in d.entries ==> r == Some(NotInList) && r.value.Raised() == ValueError
  {
    if !item.StrV? then Some(WrongItemType)
    else if item.s !in d.entries then Some(NotInList)
    else None
  }

  /** `grocery_list[item][QUANTITY] = quantity` applied to one record. */
  function WithQuantity(rec: Record, quantity: Value): (r: Record)
    ensures QUANTITY in r && r[QUANTITY] == quantity
    ensures forall f :: f != QUANTITY ==> (f in r <==> f in rec)
    ensures forall f :: f != QUANTITY && f in rec ==> r[f] == rec[f]
  {
    rec[QUANTITY := quantity]
  }

  /** The dictionary add_item leaves: unchanged when a check fails, otherwise
      the new name appended with `details` as its record. */
  function AddNext(d: Dict<Record>, catalog: set<string>, item: Value, details: Value): (r: Dict<Record>)
    requires d.Valid()
    ensures r.Valid()
    ensures StoreInvariant(d, catalog) ==> StoreInvariant(r, catalog)
    ensures AddError(d, catalog, item, details).Some? ==> r == d
    ensures AddError(d, catalog, item, details).None? ==>
              && item.s in r.entries && r.entries[item.s] == details.fields
              && r.keys == d.keys + [item.s]
              && (forall k :: k != item.s ==> (k in r.entries <==> k in d.entries))
              && (forall k :: k != item.s && k in d.entries ==> r.entries[k] == d.entries[k])
  {
    if AddError(d, catalog, item, details).None? then d.Put(item.s, details.fields) else d
  }

  /** The dictionary update_item leaves: unchanged when a check fails,
      otherwise the name's record replaced wholesale, in place. */
  function UpdateNext(d: Dict<Record>, catalog: set<string>, item: Value, details: Value): (r: Dict<Record>)
    requires d.Valid()
    ensures r.Valid()
    ensures StoreInvariant(d, catalog) ==> StoreInvariant(r, catalog)
    ensures r.keys == d.keys && r.entries.Keys == d.entries.Keys
    ensures UpdateError(d, catalog, item, details).Some? ==> r == d
    ensures UpdateError(d, catalog, item, details).None? ==>
              && r.entries[item.s] == details.fields
              && (forall k :: k != item.s && k in d.entries ==> r.entries[k] == d.entries[k])
  {
    if UpdateError(d, catalog, item, details).None? then d.Put(item.s, details.fields) else d
  }

  /** The dictionary update_quantity leaves: unchanged when a check fails,
      otherwise only that record's quantity replaced. */
  function UpdateQuantityNext(d: Dict<Record>, item: Value, quantity: Value): (r: Dict<Record>)
    requires d.Valid()
    ensures r.Valid()
    ensures forall catalog :: StoreInvariant(d, catalog) ==> StoreInvariant(r, catalog)
    ensures r.keys == d.keys && r.entries.Keys == d.entries.Keys
    ensures UpdateQuantityError(d, item, quantity).Some? ==> r == d
    ensures UpdateQuantityError(d, item, quantity).None? ==>
              && QUANTITY in r.entries[item.s] && r.entries[item.s][QUANTITY] == quantity
              && (forall f :: f != QUANTITY ==> (f in r.entries[item.s] <==> f in d.entries[item.s]))
              && (forall f :: f != QUANTITY && f in d.entries[item.s] ==>
                    r.entries[item.s][f] == d.entries[item.s][f])
              && (forall k :: k != item.s && k in d.entries ==> r.entries[k] == d.entries[k])
  {
    if UpdateQuantityError(d, item, quantity).None? then
      d.Put(item.s, WithQuantity(d.entries[item.s], quantity))
    else d
  }

  /** The dictionary remove_item leaves: unchanged when it fails, otherwise
      without the name and with the other names in their order. */
  function RemoveNext(d: Dict<Record>, item: Value): (r: Dict<Record>)
    requires d.Valid()
    ensures r.Valid()
    ensures forall catalog :: StoreInvariant(d, catalog) ==> StoreInvariant(r, catalog)
    ensures RemoveError(d, item).Some? ==> r == d
    ensures RemoveError(d, item).None? ==>
              && item.s !in r.entries
              && r.keys == Without(d.keys, item.s)
              && |r.keys| == |d.keys| - 1
              && (forall k :: k != item.s ==> (k in r.entries <==> k in d.entries))
              && (forall k :: k != item.s && k in d.entries ==> r.entries[k] == d.entries[k])
  {
    if RemoveError(d, item).None? then d.Delete(item.s) else d
  }

  /** The record the store is seeded with under "item1". */
  function SeedRecord(): (r: Record)
    ensures forall catalog: set<string> :: BAKED_GOODS in catalog ==> WellFormed(r, catalog)
  {
    map[GROC_TYPE := StrV(BAKED_GOODS), QUANTITY := IntV(10), EXPIRATION_DATE := StrV("10-20-2022")]
  }
}
