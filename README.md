# Grocery record store, modelled in Dafny

`db/groceries.py` keeps one module-level dictionary, `grocery_list`. It maps
item names to records with three required fields: `grocery_type`,
`quantity` and `expiration_date`. The module offers:

- five queries: `get_items`, `get_grocery_list`, `exists`, `get_details` and
  `get_types`;
- four validated mutators: `add_item`, `update_item`, `update_quantity` and
  `remove_item`.

Each mutator checks its inputs in a fixed order and raises a `TypeError`,
`ValueError` or `KeyError` at the first check that fails. If every check
passes, it changes the dictionary.

The model has four files:

- `py_dict.dfy` (module `PyDict`): the part of Python's `dict` the store
  relies on. A dictionary is a map plus the order in which its keys were
  first inserted. Assignment keeps a present key in its place and appends a
  new one. `del` drops one key and keeps the others in order.
- `groceries.dfy` (module `Groceries`):
  - the Python values an operation inspects (`str`, `int`, `bool`, `dict`,
    anything else);
  - records, and the error kinds;
  - for each mutator, a function that gives the error it raises on a given
    dictionary and input (`AddError`, `UpdateError`, ...);
  - for each mutator, a function that gives the dictionary it leaves behind
    (`AddNext`, `UpdateNext`, ...).
- `grocery_store.dfy` (module `Store`): class `GroceryStore`. Its field
  `groceryList` is the module's dictionary, and its `catalog` is what
  `gtyp.get_groc_types()` returns. The queries are functions. The mutators
  are methods that reassign the field. Each method is proved to raise
  exactly the error its error function gives and to leave exactly the
  dictionary its next-state function gives. The details check, including its
  `for field in REQUIRED_FIELDS` loop, is the method `CheckDetails`, which
  both `add_item` and `update_item` use.
- `grocery_lemmas.dfy` (module `GroceryLemmas`): properties that link several
  operations, the `remove_item` defect, and three client methods
  (`SeedTypesScenario`, `SeedQuantityScenario`, `SeedAddRemoveScenario`).
  Using only the contracts, they walk the seeded store through these steps:
  - it lists the types;
  - it updates item1's quantity from 10 to 3;
  - it adds item2;
  - it re-adds item2, which is rejected;
  - it removes an absent name.

Invariant: every stored record has the three fields, its type is in the
catalog, and its quantity is an int. Every mutator preserves this invariant.
Python's `bool` passes `isinstance(x, int)`, so the model accepts a `bool`
quantity, just as the code does.

`remove_item`'s `KeyError` on an absent name is kept as written (see
Findings). The queries return values instead of live references (see Left
out).

## Model

| member | source | states |
|---|---|---|
| `PyDict.Without` | db/groceries.py:87 | dropping a key keeps every other key, and only those; a list without the key is returned as it is |
| `PyDict.WithoutKeepsDistinct` | db/groceries.py:87 | dropping a key from a list without repeats leaves a list without repeats |
| `PyDict.WithoutCutsOut` | db/groceries.py:87 | dropping a key that stands at one position and nowhere else cuts out exactly that position, so the other keys keep their order |
| `PyDict.Dict.Put` | db/groceries.py:76 | `d[k] = v` stores `v` under `k`, leaves every other key and value alone, keeps a present key in place and appends a new one, and keeps the key list duplicate-free and in step with the map |
| `PyDict.Dict.Delete` | db/groceries.py:87 | `del d[k]` on a present key removes exactly `k`, leaves every other key and value alone, and the new key list is the old one with `k`'s single position cut out, so the rest keep their order |
| `Groceries.FirstMissing` | db/groceries.py:68-70 | the loop over the required fields reports nothing exactly when all are present; otherwise it reports the first absent field in list order |
| `Groceries.DetailsError` | db/groceries.py:66-75 | the details pass exactly when they form a dict with all three fields, a catalog type and an int quantity; a non-dict gives TypeError; a missing field gives that field, in the order grocery_type, quantity, expiration_date; the catalog check comes before the quantity check |
| `Groceries.AddError` | db/groceries.py:58-75 | add_item succeeds exactly for a str name that is not stored with valid details; a non-str name gives TypeError first; a stored name gives "already exists" whatever the details are; a str name not yet stored gets exactly the details error (not a dict, first missing field, type outside the catalog, then non-int quantity) |
| `Groceries.UpdateError` | db/groceries.py:90-107 | update_item succeeds exactly for a stored str name with valid details; a non-str name gives TypeError first; an absent name gives "not in grocery list"; a stored name gets exactly the details error (not a dict, first missing field, type outside the catalog, then non-int quantity) |
| `Groceries.UpdateQuantityError` | db/groceries.py:111-120 | update_quantity succeeds exactly for a stored str name and an int quantity; a non-str name gives TypeError first; then an absent name gives "not in grocery list"; then a non-int quantity gives TypeError |
| `Groceries.RemoveError` | db/groceries.py:79-87 | remove_item as written succeeds exactly for a stored str name; a non-str name gives TypeError; an absent str name gives the KeyError of `del` and never the "not in grocery list" error |
| `Groceries.RemoveErrorIntended` | db/groceries.py:85-86 | remove_item with a real existence test succeeds exactly for a stored str name; a non-str name gives TypeError; an absent str name gives the "not in grocery list" ValueError |
| `Groceries.WithQuantity` | db/groceries.py:121 | setting the quantity of a record changes that field only |
| `Groceries.SeedRecord` | db/groceries.py:14-20 | the seeded item1 record is well-formed under any catalog that contains the baked-goods tag |
| `Groceries.AddNext` | db/groceries.py:58-76 | after add_item, on error nothing changes; on success the name is stored with exactly `details`, is appended to the key order, and every other name and record is unchanged; the store invariant is preserved |
| `Groceries.UpdateNext` | db/groceries.py:90-108 | update_item never changes the key set or the key order; on success only that name's record changes, and it becomes exactly `details`; on error nothing changes; the invariant is preserved |
| `Groceries.UpdateQuantityNext` | db/groceries.py:111-121 | update_quantity never changes the key set or the key order; on success the record's quantity becomes `q`, its other fields and every other record are unchanged; on error nothing changes; the invariant is preserved |
| `Groceries.RemoveNext` | db/groceries.py:79-87 | remove_item on success deletes exactly that name and keeps the other names in order; on error nothing changes; the invariant is preserved |
| `Store.GroceryStore.constructor` | db/groceries.py:14-20 | the store starts holding only item1 with the seeded record, and satisfies the invariant |
| `Store.GroceryStore.GetItems` | db/groceries.py:23-27 | lists the stored names in insertion order (the key order `Put` and `Delete` maintain), each once, and exactly the names `exists` accepts |
| `Store.GroceryStore.GetGroceryList` | db/groceries.py:30-34 | holds exactly the listed names, each with the record `get_details` returns, every record well-formed |
| `Store.GroceryStore.Exists` | db/groceries.py:37-41 | true exactly for the names in the key order |
| `Store.GroceryStore.GetDetails` | db/groceries.py:44-48 | returns the stored record of a present name, which is well-formed; an absent name gives KeyError |
| `Store.GroceryStore.GetTypes` | db/groceries.py:51-55 | the set of `grocery_type` tags over the stored records, with no duplicates, and a subset of the catalog |
| `Store.GroceryStore.CheckDetails` | db/groceries.py:66-75 | the `for field in REQUIRED_FIELDS` validation returns exactly the error `DetailsError` specifies |
| `Store.GroceryStore.AddItem` | db/groceries.py:58-76 | raises exactly `AddError`, leaves exactly `AddNext`, keeps the invariant |
| `Store.GroceryStore.RemoveItem` | db/groceries.py:79-87 | raises exactly `RemoveError` (as written), leaves exactly `RemoveNext`, keeps the invariant |
| `Store.GroceryStore.UpdateItem` | db/groceries.py:90-108 | raises exactly `UpdateError`, leaves exactly `UpdateNext`, keeps the invariant |
| `Store.GroceryStore.UpdateQuantity` | db/groceries.py:111-121 | raises exactly `UpdateQuantityError`, leaves exactly `UpdateQuantityNext`, keeps the invariant |
| `GroceryLemmas.WithoutAppended` | db/groceries.py:87 | dropping a key that was just appended gives back the original key list |
| `GroceryLemmas.AddThenRemoveRestores` | db/groceries.py:58-87 | a successful add_item followed by remove_item of the same name succeeds and restores the dictionary exactly, key order included |
| `GroceryLemmas.ReAddRejected` | db/groceries.py:62-65 | re-adding a name that was just added fails with "already exists" whatever the details are, and changes nothing |
| `GroceryLemmas.UpdateQuantityIsUpdateItem` | db/groceries.py:100-121 | on a well-formed store, update_quantity with an int raises and leaves the same as update_item with the stored record's quantity replaced |
| `GroceryLemmas.UpdateQuantityLastWins` | db/groceries.py:111-121 | two update_quantity calls with ints leave the same dictionary as the second call alone |
| `GroceryLemmas.UpdateWithSameRecordIsIdentity` | db/groceries.py:90-108 | on a well-formed store, update_item with a name's own record succeeds and changes nothing |
| `GroceryLemmas.RemoveGuardIsDead` | db/groceries.py:85-87 | the written and the intended remove_item differ exactly on a str name that is not stored; there the code raises KeyError, the intended version raises ValueError, and neither changes anything |
| `GroceryLemmas.RemoveAbsentOnSeedRaisesKeyError` | db/groceries.py:85-87 | on the seeded store, removing "item2" raises KeyError as written, where the intended version raises "not in grocery list" |

## Findings

| source | as written | input that shows it | evidently intended | confidence | as-written member | corrected member |
|---|---|---|---|---|---|---|
| db/groceries.py:85 | `if not exists:` tests the function object, which is always truthy, so the "not in grocery list" guard never fires; an absent name is rejected only by the `KeyError` of `del` on line 87 | `remove_item("item2")` on the seeded store | `if not exists(item):`, raising the `ValueError` "not in grocery list" as `update_item` does | high (not executed) | `Groceries.RemoveError` (with `GroceryLemmas.RemoveAbsentOnSeedRaisesKeyError`) | `Groceries.RemoveErrorIntended` (with `GroceryLemmas.RemoveGuardIsDead`) |

`Store.GroceryStore.RemoveItem` models the code as written. Both versions
leave the dictionary unchanged on an absent name, so `RemoveNext` serves
both.

## Left out

- `server/endpoints.py`, the HTTP layer, is not part of this model. It does
  routing, request JSON handling and HTTP status codes.
- The users store and `groc_types` are not part of this model. The catalog
  `gtyp.get_groc_types()` is a fixed set of strings, given to the
  constructor. The constructor requires it to contain `BAKED_GOODS`. The
  value `"baked_goods"` for that constant is an assumption, because
  `groc_types` is not shown.
- Catalog membership is modelled for a catalog of strings. If the catalog is
  a Python `set`, an unhashable `grocery_type` (a dict, list or set) would raise a
  `TypeError` while the membership is tested. That case is not modelled.
- Error messages: only the kind of each error is kept (`Error`, and its
  Python class via `Error.Raised`), not the f-string text.
- Aliasing: `get_grocery_list` and `get_details` return live references
  into the store, and `add_item` and `update_item` store the caller's own
  dict. The model uses values. A caller mutating a returned or stored dict
  afterwards is not modelled; that is the only way the invariant could be
  broken from outside. Because of this, `UpdateQuantityNext`'s promise that
  every other record is unchanged holds only under value semantics. In
  Python, if the same dict object is added under two names, `update_quantity`
  on one name also changes the other name's quantity and the caller's dict.
- `Store.GroceryStore.GetGroceryList`: returns a Dafny `map`, which has no
  key order. The dictionary's insertion order is kept by `GetItems`, which
  lists the same names in that order.
- Names and record fields: dictionary keys are modelled as strings. The
  queries `exists` and `get_details` take a string name. Passing them a
  non-string, hashable name, or an unhashable one (which raises
  `TypeError`), is not modelled.
- `expiration_date` is stored and never inspected. The model treats it as
  an opaque value.
- `Store.GroceryStore.GetTypes`: returns a set. The Python function returns
  `list(set(...))`, whose order is unspecified, so the set keeps everything
  except that arbitrary order.
- The mutators and queries require the store invariant. The constructor
  establishes it and every mutator preserves it, so the requirement
  excludes no state the module can reach.
- `main()` and its printing are not modelled, because they are I/O.
- Concurrency is not modelled; the module has no locking.
