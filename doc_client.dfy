/**
 * The session table behind the DynamoDB document client, abstracted as a
 * finite map from key strings to items. Every item is stored under the value
 * of its own key attribute, which is how a put decides where the item goes.
 */
module DocClient {
  import opened Wrappers
  import opened Items

  type Table = map<string, Attributes>

  /**
   * What the table itself guarantees: each item carries its key attribute,
   * holding the string it is stored under, and no `undefined` values.
   */
  predicate WellKeyed(table: Table, keyName: string) {
    forall k :: k in table ==> Marshalled(table[k]) && keyName in table[k] && table[k][keyName] == Str(k)
  }

  /** Why a put is refused: the item has no key attribute, or it is not a string. */
  datatype StoreError = MissingKey | KeyNotString

  /** `GetCommand` by key: the stored item, or nothing. */
  function Get(table: Table, key: string): (found: Option<Attributes>)
    ensures found.None? <==> key !in table
    ensures found.Some? ==> found.value == table[key]
  {
    if key in table then Some(table[key]) else None
  }

  /**
   * `PutCommand` through a client configured with `removeUndefinedValues`:
   * the `undefined` attributes are dropped, and the item then replaces
   * whatever is stored under its key attribute. No other key changes.
   */
  function Put(table: Table, keyName: string, obj: Attributes): (r: Result<Table, StoreError>)
    ensures r.Ok? <==> keyName in obj && obj[keyName].Str?
    ensures r.Ok? && WellKeyed(table, keyName) ==> WellKeyed(r.value, keyName)
    ensures r.Ok? ==> obj[keyName].s in r.value && r.value[obj[keyName].s] == RemoveUndefined(obj)
    ensures r.Ok? ==> forall k :: k != obj[keyName].s ==> (k in r.value <==> k in table)
    ensures r.Ok? ==> forall k :: k != obj[keyName].s && k in table ==> r.value[k] == table[k]
  {
    var item := RemoveUndefined(obj);
    if keyName !in item then Err(MissingKey)
    else if !item[keyName].Str? then Err(KeyNotString)
    else Ok(table[item[keyName].s := item])
  }

  /**
   * In a well-keyed table a lookup by key finds an item that holds that very
   * key under the key attribute and no `undefined` value.
   */
  lemma GetKeyed(table: Table, keyName: string, key: string)
    requires WellKeyed(table, keyName)
    ensures Get(table, key).Some? ==> keyName in Get(table, key).value && Get(table, key).value[keyName] == Str(key)
    ensures Get(table, key).Some? ==> Marshalled(Get(table, key).value)
  {
  }

  /** `DeleteCommand` by key: removes the key whether or not it is present. */
  function Delete(table: Table, key: string): (r: Table)
    ensures key !in r
    ensures forall k :: k != key ==> (k in r <==> k in table)
    ensures forall k :: k in r ==> r[k] == table[k]
  {
    table - {key}
  }
}
