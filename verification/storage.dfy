/**
 * The browser's `localStorage`, holding the logbook's entries as structured
 * values: the JSON text the source writes with `JSON.stringify` is kept here
 * as the value it encodes, so no JSON appears in the model.
 */
module LocalStorage {
  import opened JsText

  /** A page's metadata object; `date` is a number on a blank page and a string once captured. */
  datatype Metadata = Metadata(
    site: string, date: Value, manager: string, boat: string, weather: string, comments: string)

  /** What `JSON.stringify(page)` records: `id`, `metadata` and `rows`. */
  datatype PageRecord = PageRecord(id: int, metadata: Metadata, rows: seq<seq<Value>>)

  /** A stored entry: plain text, a JSON array of page ids, or a JSON page record. */
  datatype Stored = Text(s: string) | IdList(ids: seq<int>) | PageJson(page: PageRecord)

  class Storage {
    var items: map<string, Stored>

    constructor (initial: map<string, Stored>)
      ensures items == initial
    {
      items := initial;
    }

    /** `localStorage.setItem(key, value)`. */
    method SetItem(key: string, value: Stored)
      modifies this
      ensures items == old(items)[key := value]
    {
      items := items[key := value];
    }

    /** `localStorage.removeItem(key)`; removing an absent key changes nothing. */
    method RemoveItem(key: string)
      modifies this
      ensures items == old(items) - {key}
      ensures key !in old(items) ==> items == old(items)
    {
      items := items - {key};
    }
  }
}
