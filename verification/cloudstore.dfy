/**
 * src/CloudStore.js: the stored upload key, a `|`-separated list of fields
 * addressed by position, and the base upload backend, which can never upload.
 */
module CloudStore {
  import opened Wrappers
  import opened JsText
  import opened LocalStorage

  const KeyId := "CloudStore_Key"

  /** `localStorage.getItem(KEY_ID)`: only `setKey` writes this entry, always as text. */
  function StoredKey(items: map<string, Stored>): Option<string>
  {
    if KeyId in items && items[KeyId].Text? then Some(items[KeyId].s) else None
  }

  /** `CloudStore.setKey(key)`. */
  method SetKey(store: Storage, key: string)
    modifies store
    ensures store.items == old(store.items)[KeyId := Text(key)]
  {
    store.SetItem(KeyId, Text(key));
  }

  /**
   * `CloudStore.getKey(field)`; `field` is `Some(n)` for a numeric argument,
   * and a result of `None` is `undefined`.
   */
  function GetKey(items: map<string, Stored>, field: Option<int>): (r: Option<string>)
    ensures field.None? ==> r == Some(if StoredKey(items).Some? then StoredKey(items).value else "")
    ensures StoredKey(items) !in {None, Some("")} && field.Some? ==>
      var ids := Split(StoredKey(items).value, '|');
      r == if 0 <= field.value < |ids| then Some(ids[field.value]) else None
    ensures StoredKey(items) in {None, Some("")} ==> r == Some("")
  {
    var key := StoredKey(items);
    if key.Some? && key.value != "" && field.Some? then
      var ids := Split(key.value, '|');
      if 0 <= field.value < |ids| then Some(ids[field.value]) else None
    else
      Some(if key.Some? then key.value else "")
  }

  /** After `setKey(k)`, `getKey()` returns `k`. */
  lemma GetKeyAfterSetKey(items: map<string, Stored>, k: string)
    ensures GetKey(items[KeyId := Text(k)], None) == Some(k)
  {
  }

  /** Storing the `|`-join of separator-free fields makes `getKey(i)` return field `i`. */
  lemma GetKeyOfJoinedFields(items: map<string, Stored>, fields: seq<string>, i: int)
    requires |fields| >= 1 && NoSeparator(fields, '|')
    requires 0 <= i < |fields|
    ensures GetKey(items[KeyId := Text(Join(fields, '|'))], Some(i)) == Some(fields[i])
  {
    SplitJoin(fields, '|');
  }

  /** A stored field never contains the separator. */
  lemma GetKeyFieldHasNoSeparator(items: map<string, Stored>, n: int)
    requires GetKey(items, Some(n)).Some?
    ensures '|' !in GetKey(items, Some(n)).value
  {
    var key := StoredKey(items);
    if key.Some? && key.value != "" {
      SplitFieldsHaveNoSeparator(key.value, '|');
    }
  }

  /** Base `canUpload`: the abstract store has nothing to upload with. */
  function CanUpload(): (r: bool)
    ensures !r
  {
    false
  }

  /** Base `upload(rows)`: always rejected. */
  function Upload(rows: seq<seq<Value>>): (r: Result<(), string>)
    ensures r == Failure("Incorrect upload key")
  {
    Failure("Incorrect upload key")
  }
}
