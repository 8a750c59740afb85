/**
 * src/Pages.js: the list of pages kept in this browser. The ids are stored in
 * order under `"dive_pages"`; each page under its own `"dive_page_" + id`.
 */
module DivePages {
  import opened Wrappers
  import opened JsText
  import opened LocalStorage
  import opened DivePage

  /** `LS_KEY`: where the list of page ids is stored. */
  const ListKey: string := "dive_pages"

  /** The key `removePage` deletes, `page_` + id: not the key a page is stored under. */
  function RemovedKey(id: int): string
  {
    "page_" + IntToString(id)
  }

  /** No page key, removed key or the list key can stand for another. */
  lemma KeysDiffer(a: int, b: int)
    ensures RemovedKey(a) != PageKey(b) && RemovedKey(a) != ListKey && PageKey(b) != ListKey
  {
    assert RemovedKey(a)[0] == 'p' && PageKey(b)[0] == 'd' && ListKey[0] == 'd';
    assert PageKey(b)[9] == '_' && ListKey[9] == 's';
  }

  /** The records of the pages `ps`, in order. */
  function RecordsOf(ps: seq<Page>): (rs: seq<PageRecord>)
    reads ps
    ensures |rs| == |ps| && forall i :: 0 <= i < |ps| ==> rs[i] == ps[i].Record()
  {
    seq(|ps|, i requires 0 <= i < |ps| reads ps => ps[i].Record())
  }

  lemma RecordsSnoc(ps: seq<Page>, p: Page)
    ensures RecordsOf(ps + [p]) == RecordsOf(ps) + [p.Record()]
  {
  }

  /** `this.pages.map(p => p.id)`. */
  function IdsOf(ps: seq<Page>): (ids: seq<int>)
    reads ps
  {
    seq(|ps|, i requires 0 <= i < |ps| reads ps => ps[i].id)
  }

  /** The stored list is `ids`. */
  predicate ListSaved(items: map<string, Stored>, ids: seq<int>)
  {
    ListKey in items && items[ListKey] == IdList(ids)
  }

  /** Every page object occurs once. */
  predicate Distinct(ps: seq<Page>)
  {
    forall i, j :: 0 <= i < j < |ps| ==> ps[i] != ps[j]
  }

  // ---------------------------------------------------------------------------
  // Array operations as JavaScript defines them

  /** `ps.indexOf(p)`: the first index of `p`, or -1. */
  function IndexOf(ps: seq<Page>, p: Page): (i: int)
    ensures -1 <= i < |ps|
    ensures i == -1 <==> p !in ps
    ensures i >= 0 ==> ps[i] == p && p !in ps[..i]
  {
    if ps == [] then -1
    else if ps[0] == p then 0
    else
      var j := IndexOf(ps[1..], p);
      assert j >= 0 ==> ps[1..][..j] == ps[1..j + 1];
      if j == -1 then -1 else j + 1
  }

  /** `s.splice(start, 1)`: a negative start counts from the end. */
  function Splice1<T>(s: seq<T>, start: int): seq<T>
  {
    var k := if start >= 0 then start else if |s| + start < 0 then 0 else |s| + start;
    if k < |s| then s[..k] + s[k + 1..] else s
  }

  /** Removing a page of the list takes out that page and only it. */
  lemma RemoveMember(ps: seq<Page>, p: Page)
    requires Distinct(ps) && p in ps
    ensures var i := IndexOf(ps, p);
            Splice1(ps, i) == ps[..i] + ps[i + 1..] && |Splice1(ps, i)| == |ps| - 1
    ensures forall q :: q in Splice1(ps, IndexOf(ps, p)) <==> q in ps && q != p
  {
    var i := IndexOf(ps, p);
    var r := Splice1(ps, i);
    assert r == ps[..i] + ps[i + 1..];
    forall q ensures q in r <==> q in ps && q != p {
      if q in r {
        var j :| 0 <= j < |r| && r[j] == q;
        if j < i { assert q == ps[j]; } else { assert q == ps[j + 1]; }
      }
      if q in ps && q != p {
        var j :| 0 <= j < |ps| && ps[j] == q;
        if j < i { assert r[j] == q; } else { assert r[j - 1] == q; }
      }
    }
  }

  /** Removing a page that is not in the list drops the last page instead (`splice(-1, 1)`). */
  lemma RemoveNonMember(ps: seq<Page>, p: Page)
    requires p !in ps && |ps| > 0
    ensures Splice1(ps, IndexOf(ps, p)) == ps[..|ps| - 1]
  {
  }

  /** `ps.find(p => p.id === id)`. */
  function FindById(ps: seq<Page>, id: int): (r: Option<Page>)
    reads ps
    ensures r.None? <==> forall i :: 0 <= i < |ps| ==> ps[i].id != id
    ensures r.Some? ==> exists i :: 0 <= i < |ps| && ps[i] == r.value && r.value.id == id &&
                                    forall j :: 0 <= j < i ==> ps[j].id != id
  {
    if ps == [] then None
    else if ps[0].id == id then Some(ps[0])
    else
      var r := FindById(ps[1..], id);
      if r.Some? then
        assert exists i :: 1 <= i < |ps| && ps[i] == r.value && r.value.id == id &&
                           forall j :: 0 <= j < i ==> ps[j].id != id by {
          var k :| 0 <= k < |ps| - 1 && ps[1..][k] == r.value && r.value.id == id &&
                   forall j :: 0 <= j < k ==> ps[1..][j].id != id;
          assert ps[k + 1] == r.value;
          forall j | 0 <= j < k + 1 ensures ps[j].id != id {
            if j > 0 { assert ps[j] == ps[1..][j - 1]; }
          }
        }
        r
      else
        assert forall i :: 1 <= i < |ps| ==> ps[i].id != id by {
          forall i | 1 <= i < |ps| ensures ps[i].id != id { assert ps[i] == ps[1..][i - 1]; }
        }
        r
  }

  /** Positions 1, 3, 5, ... of `s`. */
  function OddPositions<T>(s: seq<T>): (r: seq<T>)
    ensures |r| == |s| / 2 && forall j :: 0 <= j < |r| ==> r[j] == s[2 * j + 1]
  {
    seq(|s| / 2, j requires 0 <= j < |s| / 2 => s[2 * j + 1])
  }

  /** Positions 0, 2, 4, ... of `s`. */
  function EvenPositions<T>(s: seq<T>): (r: seq<T>)
    ensures |r| == (|s| + 1) / 2 && forall j :: 0 <= j < |r| ==> r[j] == s[2 * j]
  {
    seq((|s| + 1) / 2, j requires 0 <= j < (|s| + 1) / 2 => s[2 * j])
  }

  /** The positions the removal loop keeps and those it removes split the list: nothing is lost or duplicated. */
  lemma {:induction false} KeptAndRemoved<T>(s: seq<T>)
    ensures multiset(OddPositions(s)) + multiset(EvenPositions(s)) == multiset(s)
  {
    if |s| >= 2 {
      KeptAndRemoved(s[2..]);
      assert OddPositions(s) == [s[1]] + OddPositions(s[2..]);
      assert EvenPositions(s) == [s[0]] + EvenPositions(s[2..]);
      assert s == [s[0]] + [s[1]] + s[2..];
    } else if |s| == 1 {
      assert EvenPositions(s) == s;
    }
  }

  /** The `page_` keys of the pages with ids `ids`. */
  function RemovedKeys(ids: seq<int>): set<string>
  {
    if ids == [] then {} else RemovedKeys(ids[..|ids| - 1]) + {RemovedKey(ids[|ids| - 1])}
  }

  /** Removing `page_` keys never touches the list or a page's record. */
  lemma {:induction false} RemovedKeysArePageUnderscore(ids: seq<int>, n: int)
    ensures ListKey !in RemovedKeys(ids) && PageKey(n) !in RemovedKeys(ids)
  {
    if ids != [] {
      RemovedKeysArePageUnderscore(ids[..|ids| - 1], n);
      KeysDiffer(ids[|ids| - 1], n);
    }
  }

  /** The records of pages removed after an upload stay in storage. */
  lemma UploadedRecordsSurvive(items: map<string, Stored>, list: Stored, ids: seq<int>, n: int)
    requires PageKey(n) in items
    ensures var after := items[ListKey := list] - RemovedKeys(ids);
            PageKey(n) in after && after[PageKey(n)] == items[PageKey(n)]
  {
    RemovedKeysArePageUnderscore(ids, n);
    KeysDiffer(0, n);
  }

  /**
   * As written, the removal loop leaves uploaded pages behind: with two or
   * more pages, the one at position 1 is still listed afterwards.
   */
  lemma UploadedPagesRemain<T>(s: seq<T>)
    requires |s| >= 2
    ensures s[1] in OddPositions(s) && |OddPositions(s)| == |s| / 2
  {
    assert OddPositions(s)[0] == s[1];
  }

  /** The keys a page record is saved under, `"dive_page_" + id`, for the pages with ids `ids`. */
  function RecordKeys(ids: seq<int>): set<string>
  {
    if ids == [] then {} else RecordKeys(ids[..|ids| - 1]) + {PageKey(ids[|ids| - 1])}
  }

  /** Every listed id's record key is among them, and the list key never is. */
  lemma {:induction false} RecordKeysFacts(ids: seq<int>)
    ensures ListKey !in RecordKeys(ids)
    ensures forall j :: 0 <= j < |ids| ==> PageKey(ids[j]) in RecordKeys(ids)
  {
    if ids != [] {
      var front := ids[..|ids| - 1];
      RecordKeysFacts(front);
      KeysDiffer(0, ids[|ids| - 1]);
      forall j | 0 <= j < |ids| ensures PageKey(ids[j]) in RecordKeys(ids) {
        if j < |front| {
          assert ids[j] == front[j];
        }
      }
    }
  }

  /**
   * With the records deleted under the key they are saved under, no record of
   * a removed page is left in storage, and every other entry but the list stays.
   */
  lemma NoRecordLeft(items: map<string, Stored>, list: Stored, ids: seq<int>)
    ensures var after := items[ListKey := list] - RecordKeys(ids);
            && (forall j :: 0 <= j < |ids| ==> PageKey(ids[j]) !in after)
            && ListKey in after && after[ListKey] == list
            && forall k :: k in items && k != ListKey && k !in RecordKeys(ids) ==> k in after && after[k] == items[k]
  {
    RecordKeysFacts(ids);
  }

  lemma IdsOfSuffix(ps: seq<Page>, i: nat)
    requires i <= |ps|
    ensures IdsOf(ps[i..]) == IdsOf(ps)[i..]
  {
  }

  /** Removing the first page of a list splices out exactly that page. */
  lemma SpliceFirst(ps: seq<Page>)
    requires ps != []
    ensures Splice1(ps, IndexOf(ps, ps[0])) == ps[1..]
  {
  }

  /**
   * The storage after `i` passes of the removal loop over a copy: the rest of
   * the ids listed, and the records of the first `i` deleted.
   */
  function CopyRemoved(items0: map<string, Stored>, ids: seq<int>, i: nat): map<string, Stored>
    requires i <= |ids|
  {
    if i == 0 then items0 else items0[ListKey := IdList(ids[i..])] - RecordKeys(ids[..i])
  }

  /** The store after pass `i` of the removal loop over a copy, from the store before it. */
  lemma CopyRemovalStoreStep(items0: map<string, Stored>, before: map<string, Stored>,
                             after: map<string, Stored>, ids: seq<int>, i: nat)
    requires i < |ids| && before == CopyRemoved(items0, ids, i)
    requires after == before[ListKey := IdList(ids[i + 1..])] - {PageKey(ids[i])}
    ensures after == CopyRemoved(items0, ids, i + 1)
  {
    assert ids[..i + 1][..i] == ids[..i];
    RecordKeysFacts(ids[..i]);
    KeysDiffer(0, ids[i]);
    StoreStep(items0, before, IdList(ids[i..]), IdList(ids[i + 1..]), RecordKeys(ids[..i]), RecordKeys(ids[..i + 1]),
              PageKey(ids[i]), i == 0);
  }

  /** Saving the list again after keys other than the list were removed. */
  lemma Relist(items: map<string, Stored>, prior: Stored, list: Stored, gone: set<string>)
    requires ListKey !in gone
    ensures (items[ListKey := prior] - gone)[ListKey := list] == items[ListKey := list] - gone
  {
  }

  // ---------------------------------------------------------------------------
  // The upload batch

  /**
   * The batch as written: `page.prepareUpload()` for each page, but a page
   * has no `prepareUpload` method, so the call throws a TypeError as soon as
   * there is a page.
   */
  function BatchAsWritten(ps: seq<Page>): (r: Result<seq<seq<Value>>, string>)
    ensures r.Success? <==> ps == []
  {
    if ps == [] then Success([]) else Failure("TypeError: page.prepareUpload is not a function")
  }

  /** The batch as intended: each page's `uploadToDrive()` records, page after page. */
  function Batch(ps: seq<Page>): seq<seq<Value>>
    reads ps
  {
    if ps == [] then [] else Batch(ps[..|ps| - 1]) + ps[|ps| - 1].UploadToDrive()
  }

  lemma {:induction false} BatchPrefix(ps: seq<Page>, i: nat)
    requires i <= |ps|
    ensures Batch(ps[..i]) <= Batch(ps)
    decreases |ps| - i
  {
    if i < |ps| {
      BatchPrefix(ps, i + 1);
      assert ps[..i + 1][..i] == ps[..i];
    } else {
      assert ps[..i] == ps;
    }
  }

  /** Every page can be rebuilt from its stretch of the batch: the upload carries every page whole. */
  lemma BatchCarriesEveryPage(ps: seq<Page>, i: nat)
    requires i < |ps|
    ensures var k := |Batch(ps[..i])|;
            k + 1 + |ps[i].rows| <= |Batch(ps)| &&
            RecordsToPage(Batch(ps)[k..k + 1 + |ps[i].rows|]) == Some(ps[i].Record())
  {
    var mine := ps[i].UploadToDrive();
    BatchStretch(ps, i, mine);
  }

  /** Page `i`'s records sit in the batch right after those of the pages before it. */
  lemma BatchStretch(ps: seq<Page>, i: nat, mine: seq<seq<Value>>)
    requires i < |ps| && mine == ps[i].UploadToDrive()
    ensures var k := |Batch(ps[..i])|;
            k + |mine| <= |Batch(ps)| && Batch(ps)[k..k + |mine|] == mine
  {
    BatchSnoc(ps, i);
    BatchPrefix(ps, i + 1);
    SliceOfPrefix(Batch(ps[..i]), mine, Batch(ps));
  }

  /** One page more adds its records at the end of the batch. */
  lemma BatchSnoc(ps: seq<Page>, i: nat)
    requires i < |ps|
    ensures Batch(ps[..i + 1]) == Batch(ps[..i]) + ps[i].UploadToDrive()
  {
    assert ps[..i + 1][..i] == ps[..i];
  }

  lemma SliceOfPrefix<T>(front: seq<T>, mine: seq<T>, whole: seq<T>)
    requires front + mine <= whole
    ensures |front| + |mine| <= |whole| && whole[|front|..|front| + |mine|] == mine
  {
    assert whole[..|front| + |mine|] == front + mine;
  }

  // ---------------------------------------------------------------------------
  // Loading the list

  /** The stored id list, when there is one (`known` is a non-empty string). */
  function StoredIds(items: map<string, Stored>): Option<seq<int>>
  {
    if ListKey in items && items[ListKey].IdList? then Some(items[ListKey].ids) else None
  }

  /**
   * The record `new Page(n)` yields in the constructor, given the storage `start`
   * it started from: the stored record, or the screen's capture `captured`
   * when there is none. A capture saved earlier in the same loop is what a later
   * `n` equal to its id reads back.
   */
  ghost predicate LoadedAs(start: map<string, Stored>, n: int, now: int, captured: PageRecord, r: PageRecord)
  {
    var key := PageKey(n);
    if key in start && start[key].PageJson? then r == start[key].page || (n == now && r == captured)
    else r == captured
  }

  /** `records` are what `new Page(id)` yielded for the first `|records|` of `ids`. */
  ghost predicate AllLoaded(start: map<string, Stored>, ids: seq<int>, now: int, captured: PageRecord, records: seq<PageRecord>)
  {
    |records| <= |ids| && forall j :: 0 <= j < |records| ==> LoadedAs(start, ids[j], now, captured, records[j])
  }

  lemma AllLoadedSnoc(start: map<string, Stored>, ids: seq<int>, now: int, captured: PageRecord,
                      records: seq<PageRecord>, r: PageRecord)
    requires AllLoaded(start, ids, now, captured, records) && |records| < |ids|
    requires LoadedAs(start, ids[|records|], now, captured, r)
    ensures AllLoaded(start, ids, now, captured, records + [r])
  {
    var rs := records + [r];
    forall j | 0 <= j < |rs| ensures LoadedAs(start, ids[j], now, captured, rs[j]) {
      if j < |records| {
        assert rs[j] == records[j];
      }
    }
  }

  /** The storage during the constructor's loop: besides the list, only a capture under `now` is new. */
  ghost predicate LoadingStore(items: map<string, Stored>, start: map<string, Stored>, now: int, captured: PageRecord)
  {
    var key := PageKey(now);
    && items - {ListKey, key} == start - {ListKey, key}
    && (key in items ==> ((key in start && items[key] == start[key]) || items[key] == PageJson(captured)))
    && (key !in items ==> key !in start)
  }

  lemma LoadingLookup(items: map<string, Stored>, start: map<string, Stored>, n: int, now: int, captured: PageRecord)
    requires LoadingStore(items, start, now, captured)
    ensures PageKey(n) in items && items[PageKey(n)].PageJson? ==> LoadedAs(start, n, now, captured, items[PageKey(n)].page)
    ensures !(PageKey(n) in items && items[PageKey(n)].PageJson?) ==> LoadedAs(start, n, now, captured, captured)
  {
    KeysDiffer(0, n);
    if n != now {
      if PageKey(n) == PageKey(now) {
        PageKeyInjective(n, now);
      }
      var key, drop := PageKey(n), {ListKey, PageKey(now)};
      assert key !in drop;
      assert (key in items) == (key in items - drop) == (key in start - drop) == (key in start);
      if key in items {
        assert items[key] == (items - drop)[key] == (start - drop)[key] == start[key];
      }
    }
  }

  /** The grid during the constructor's loop: as it was, or with its dive times filled in once. */
  ghost predicate OnScreen(values: seq<string>, start: seq<string>)
  {
    values == start || values == WithDiveTimes(start, |start| / Columns)
  }

  /**
   * The page records and the storage `new Pages()` leaves, from the storage
   * `start` and the screen (`meta`, `screen`, `checked`) it met. Without a
   * stored list: the one captured page, saved under `now` and listed alone.
   * With one: a record per listed id as `LoadedAs` allows, and the storage
   * changed at most in the list and the capture under `now` (not at all for
   * an empty list).
   */
  ghost predicate Opened(start: map<string, Stored>, meta: Metadata, screen: seq<string>, checked: seq<bool>, now: int,
                         records: seq<PageRecord>, items: map<string, Stored>)
    requires |screen| == |checked| && |screen| % Columns == 0
  {
    var captured := Captured(now, meta, screen, checked);
    match StoredIds(start)
    case None =>
      && records == [captured]
      && items == start[PageKey(now) := PageJson(captured)][ListKey := IdList([now])]
    case Some(ids) =>
      && |records| == |ids|
      && (forall i :: 0 <= i < |ids| ==> LoadedAs(start, ids[i], now, captured, records[i]))
      && LoadingStore(items, start, now, captured)
      && (ids == [] ==> items == start)
  }

  /**
   * One `new Page(ids[i])` of the constructor's loop, on the storage `items` and
   * grid `values` it meets: the record it yields is the one `LoadedAs` allows,
   * and storage and grid stay as the loop expects.
   */
  lemma LoadStep(items: map<string, Stored>, start: map<string, Stored>, values: seq<string>, values0: seq<string>,
                 n: int, now: int, meta: Metadata, checked: seq<bool>, captured: PageRecord,
                 r: PageRecord, items': map<string, Stored>, values': seq<string>)
    requires |values0| == |checked| && |values0| % Columns == 0
    requires captured == Captured(now, meta, values0, checked)
    requires LoadingStore(items, start, now, captured) && OnScreen(values, values0)
    requires PageKey(n) in items && items[PageKey(n)].PageJson? ==>
               r == items[PageKey(n)].page && items' == items && values' == values
    requires !(PageKey(n) in items && items[PageKey(n)].PageJson?) ==>
               && r == Captured(now, meta, values, checked)
               && values' == WithDiveTimes(values, |values| / Columns)
               && items' == items[PageKey(now) := PageJson(r)]
    ensures LoadedAs(start, n, now, captured, r)
    ensures LoadingStore(items', start, now, captured) && OnScreen(values', values0)
  {
    LoadingLookup(items, start, n, now, captured);
    if !(PageKey(n) in items && items[PageKey(n)].PageJson?) {
      assert r == captured by {
        if values != values0 {
          CaptureAgain(now, meta, values0, checked);
        }
      }
      assert values' == WithDiveTimes(values0, |values0| / Columns) by {
        WithDiveTimesIdempotent(values0, |values0| / Columns);
      }
      var key := PageKey(now);
      assert items' - {ListKey, key} == items - {ListKey, key};
    }
  }

  /** Saving the list keeps the storage as the constructor's loop expects it. */
  lemma LoadingStoreList(items: map<string, Stored>, list: Stored, start: map<string, Stored>, now: int, captured: PageRecord)
    requires LoadingStore(items, start, now, captured)
    ensures LoadingStore(items[ListKey := list], start, now, captured)
  {
    KeysDiffer(0, now);
    var key := PageKey(now);
    assert items[ListKey := list] - {ListKey, key} == items - {ListKey, key};
  }

  /** Capturing an already captured screen again yields the same record. */
  lemma CaptureAgain(id: int, meta: Metadata, values: seq<string>, checked: seq<bool>)
    requires |values| == |checked| && |values| % Columns == 0
    ensures Captured(id, meta, WithDiveTimes(values, |values| / Columns), checked) == Captured(id, meta, values, checked)
  {
    WithDiveTimesIdempotent(values, |values| / Columns);
  }

  // ---------------------------------------------------------------------------
  // The list object

  datatype Alert = NothingToUpload | UploadsComplete | UploadFailed

  class Pages {
    var pages: seq<Page>

    ghost predicate Valid()
      reads this
    {
      Distinct(pages)
    }

    /**
     * `new Pages()` up to `this.pages[0].loadIntoUI()`: a page for each stored
     * id, in order, or one page captured from the screen when no list is stored.
     */
    constructor (store: Storage, ui: UI, now: int)
      requires ui.Valid()
      modifies store, ui, ui.values
      ensures Valid()
      ensures Opened(old(store.items), old(UIMetadata(ui.site, ui.date, ui.manager, ui.boat, ui.weather, ui.comments)),
                     old(ui.values[..]), ui.checked[..], now, RecordsOf(pages), store.items)
      ensures |pages| > 0 ==> ListSaved(store.items, IdsOf(pages))
      ensures StoredIds(old(store.items)).None? ==>
                ui.currentPage == now && ui.values[..] == WithDiveTimes(old(ui.values[..]), ui.values.Length / Columns)
      ensures StoredIds(old(store.items)).Some? ==> OnScreen(ui.values[..], old(ui.values[..]))
      ensures StoredIds(old(store.items)) == Some([]) ==> ui.values[..] == old(ui.values[..])
      ensures UIMetadata(ui.site, ui.date, ui.manager, ui.boat, ui.weather, ui.comments)
           == old(UIMetadata(ui.site, ui.date, ui.manager, ui.boat, ui.weather, ui.comments))
    {
      pages := [];
      new;
      var known := StoredIds(store.items);
      if known.Some? {
        LoadListed(known.value, store, ui, now);
      } else {
        var page := new Page.FromUI(ui, store, now);
        AddPage(page, store);
        assert IdsOf(pages) == [now];
      }
    }

    /** The constructor's loop: `new Page(id)` and `addPage` for each stored id, in order. */
    method LoadListed(ids: seq<int>, store: Storage, ui: UI, now: int)
      requires ui.Valid() && pages == [] && StoredIds(store.items) == Some(ids)
      modifies this, store, ui, ui.values
      ensures Valid()
      ensures Opened(old(store.items), old(UIMetadata(ui.site, ui.date, ui.manager, ui.boat, ui.weather, ui.comments)),
                     old(ui.values[..]), ui.checked[..], now, RecordsOf(pages), store.items)
      ensures |pages| > 0 ==> ListSaved(store.items, IdsOf(pages))
      ensures OnScreen(ui.values[..], old(ui.values[..]))
      ensures ids == [] ==> ui.values[..] == old(ui.values[..])
      ensures UIMetadata(ui.site, ui.date, ui.manager, ui.boat, ui.weather, ui.comments)
           == old(UIMetadata(ui.site, ui.date, ui.manager, ui.boat, ui.weather, ui.comments))
    {
      ghost var items0 := store.items;
      ghost var values0 := ui.values[..];
      ghost var meta := UIMetadata(ui.site, ui.date, ui.manager, ui.boat, ui.weather, ui.comments);
      ghost var captured := Captured(now, meta, values0, ui.checked[..]);
      ghost var records: seq<PageRecord> := [];
      var i := 0;
      while i < |ids|
        invariant 0 <= i <= |ids| && |pages| == i && |records| == i
        invariant Distinct(pages)
        invariant AllLoaded(items0, ids, now, captured, records)
        invariant RecordsOf(pages) == records
        invariant OnScreen(ui.values[..], values0)
        invariant UIMetadata(ui.site, ui.date, ui.manager, ui.boat, ui.weather, ui.comments) == meta
        invariant LoadingStore(store.items, items0, now, captured)
        invariant i > 0 ==> ListSaved(store.items, IdsOf(pages))
        invariant i == 0 ==> store.items == items0 && ui.values[..] == values0
      {
        LoadNext(ids[i], store, ui, now, items0, values0, meta, captured);
        AllLoadedSnoc(items0, ids, now, captured, records, pages[i].Record());
        records := records + [pages[i].Record()];
        i := i + 1;
      }
    }

    /** One pass of the constructor's loop: `new Page(n)`, then `addPage`. */
    method LoadNext(n: int, store: Storage, ui: UI, now: int,
                    ghost start: map<string, Stored>, ghost values0: seq<string>, ghost meta: Metadata, ghost captured: PageRecord)
      requires ui.Valid() && |values0| == ui.values.Length
      requires captured == Captured(now, meta, values0, ui.checked[..])
      requires LoadingStore(store.items, start, now, captured) && OnScreen(ui.values[..], values0)
      requires UIMetadata(ui.site, ui.date, ui.manager, ui.boat, ui.weather, ui.comments) == meta
      modifies this, store, ui, ui.values
      ensures |pages| == |old(pages)| + 1 && pages[..|old(pages)|] == old(pages) && fresh(pages[|old(pages)|])
      ensures RecordsOf(pages) == old(RecordsOf(pages)) + [pages[|old(pages)|].Record()]
      ensures old(Valid()) ==> Valid()
      ensures LoadedAs(start, n, now, captured, pages[|old(pages)|].Record())
      ensures LoadingStore(store.items, start, now, captured) && OnScreen(ui.values[..], values0)
      ensures UIMetadata(ui.site, ui.date, ui.manager, ui.boat, ui.weather, ui.comments) == meta
      ensures ListSaved(store.items, IdsOf(pages))
    {
      ghost var items, values := store.items, ui.values[..];
      ghost var prev, records := pages, RecordsOf(pages);
      var page := new Page.Load(n, ui, store, now);
      assert RecordsOf(prev) == records;
      LoadStep(items, start, values, values0, n, now, meta, ui.checked[..], captured,
               page.Record(), store.items, ui.values[..]);
      ghost var loaded := store.items;
      AddPage(page, store);
      LoadingStoreList(loaded, IdList(IdsOf(pages)), start, now, captured);
      assert RecordsOf(prev) == records;
      assert pages[..|prev|] == prev;
      RecordsSnoc(prev, page);
    }

    /** `saveToLocal()`: the ids, in order, under the list key. */
    method SaveToLocal(store: Storage)
      modifies store
      ensures store.items == old(store.items)[ListKey := IdList(IdsOf(pages))]
    {
      store.SetItem(ListKey, IdList(IdsOf(pages)));
    }

    /** `addPage(page)`: append it, then save the list. */
    method AddPage(page: Page, store: Storage)
      modifies this, store
      ensures pages == old(pages) + [page]
      ensures store.items == old(store.items)[ListKey := IdList(IdsOf(pages))]
      ensures old(Valid()) && page !in old(pages) ==> Valid()
    {
      pages := pages + [page];
      SaveToLocal(store);
    }

    /** `newPage()`: add a blank page stamped `now` and show it. */
    method NewPage(store: Storage, ui: UI, now: int)
      modifies this, store, ui, ui.values
      ensures |pages| == |old(pages)| + 1 && pages[..|old(pages)|] == old(pages)
      ensures var page := pages[|old(pages)|];
              fresh(page) && page.Record() == PageRecord(now, Metadata("", Num(now), "", "", "", ""), [])
      ensures store.items == old(store.items)[ListKey := IdList(IdsOf(pages))]
      ensures old(Valid()) ==> Valid()
      ensures Shows(ui, pages[|old(pages)|]) && ui.values[..] == Blanks(ui.values.Length)
    {
      var page := new Page.Blank(now);
      AddPage(page, store);
      var ok := page.LoadIntoUI(ui);
    }

    /**
     * `removePage(page)`: splice out the page at `indexOf(page)` (the last page
     * when it is absent), save the list, and remove the `page_` key.
     */
    method RemovePage(page: Page, store: Storage)
      modifies this, store
      ensures pages == Splice1(old(pages), IndexOf(old(pages), page))
      ensures store.items == old(store.items)[ListKey := IdList(IdsOf(pages))] - {RemovedKey(page.id)}
    {
      pages := Splice1(pages, IndexOf(pages, page));
      SaveToLocal(store);
      store.RemoveItem(RemovedKey(page.id));
    }

    /**
     * `updatePageFromUI()`: capture the screen into the page whose id
     * `#currentPage` shows, and save it. `ok` is false when there is no such
     * page: the source then throws a TypeError on `undefined.updateFromUI`.
     */
    method UpdatePageFromUI(ui: UI, store: Storage) returns (ok: bool)
      requires ui.Valid()
      modifies ui.values, store, pages
      ensures var found := old(FindById(pages, ui.currentPage));
              && (ok <==> found.Some?)
              && (found.None? ==> store.items == old(store.items) && ui.values[..] == old(ui.values[..]))
              && (found.Some? ==>
                    && found.value.Record() == Captured(ui.currentPage, UIMetadata(ui.site, ui.date, ui.manager, ui.boat, ui.weather, ui.comments),
                                                        old(ui.values[..]), ui.checked[..])
                    && ui.values[..] == WithDiveTimes(old(ui.values[..]), ui.values.Length / Columns)
                    && store.items == old(store.items)[PageKey(ui.currentPage) := PageJson(found.value.Record())]
                    && forall p :: p in pages && p != found.value ==> p.Record() == old(p.Record()))
      ensures IdsOf(pages) == old(IdsOf(pages))
    {
      var found := FindById(pages, ui.currentPage);
      if found.None? {
        return false;
      }
      var page := found.value;
      page.UpdateFromUI(ui, store);
      page.SaveToLocal(store);
      ok := true;
    }

    /** `this.pages[0].loadIntoUI()`; `ok` is false when that throws (no page, or too many cells). */
    method ShowFirst(ui: UI) returns (ok: bool)
      modifies ui, ui.values
      ensures |pages| == 0 ==> !ok && unchanged(ui, ui.values)
      ensures |pages| > 0 ==> Shows(ui, pages[0]) && (ok <==> Fits(pages[0].rows, ui))
    {
      if |pages| == 0 {
        return false;
      }
      ok := pages[0].LoadIntoUI(ui);
    }

    /**
     * `retryUploads()`, with the batch built by `uploadToDrive` (see
     * `BatchAsWritten`). `appended` is whether authentication and the sheet
     * append succeeded. Afterwards the loop removes pages from the list it is
     * iterating, so only the pages at even positions go.
     */
    method RetryUploads(store: Storage, ui: UI, now: int, appended: bool) returns (sent: Option<seq<seq<Value>>>, alert: Alert)
      requires Valid()
      modifies this, store, ui, ui.values
      ensures old(pages) == [] ==> sent == None && alert == NothingToUpload && pages == old(pages) && unchanged(store, ui, ui.values)
      ensures old(pages) != [] ==> sent == Some(old(Batch(pages)))
      ensures old(pages) != [] && !appended ==> alert == UploadFailed && pages == old(pages) && unchanged(store, ui, ui.values)
      ensures old(pages) != [] && appended ==>
                && (|old(pages)| > 1 ==> pages == OddPositions(old(pages)))
                && (|old(pages)| == 1 ==> (|pages| == 1 && fresh(pages[0]) &&
                      pages[0].Record() == PageRecord(now, Metadata("", Num(now), "", "", "", ""), [])))
                && store.items == old(store.items)[ListKey := IdList(IdsOf(pages))] - RemovedKeys(EvenPositions(old(IdsOf(pages))))
                && Shows(ui, pages[0])
                && (alert == UploadsComplete <==> Fits(pages[0].rows, ui))
                && (alert != UploadsComplete ==> alert == UploadFailed)
      ensures Valid()
    {
      if |pages| == 0 {
        return None, NothingToUpload;
      }
      var rows := CollectUploads();
      sent := Some(rows);
      if !appended {
        return sent, UploadFailed;
      }
      alert := ClearUploaded(store, ui, now);
    }

    /** After a successful upload: remove the uploaded pages, keep one page, show the first. */
    method ClearUploaded(store: Storage, ui: UI, now: int) returns (alert: Alert)
      requires Valid() && pages != []
      modifies this, store, ui, ui.values
      ensures |old(pages)| > 1 ==> pages == OddPositions(old(pages))
      ensures |old(pages)| == 1 ==> (|pages| == 1 && fresh(pages[0]) &&
                pages[0].Record() == PageRecord(now, Metadata("", Num(now), "", "", "", ""), []))
      ensures store.items == old(store.items)[ListKey := IdList(IdsOf(pages))] - RemovedKeys(EvenPositions(old(IdsOf(pages))))
      ensures Shows(ui, pages[0])
      ensures alert == UploadsComplete <==> Fits(pages[0].rows, ui)
      ensures alert != UploadsComplete ==> alert == UploadFailed
      ensures Valid()
    {
      ghost var gone := RemovedKeys(EvenPositions(IdsOf(pages)));
      ghost var ids := IdsOf(pages);
      RemoveUploaded(store);
      if |pages| == 0 {
        ghost var emptied := store.items;
        assert IdsOf(pages) == [];
        var page := new Page.Blank(now);
        AddPage(page, store);
        ListAfterRemoval(old(store.items), emptied, IdList([]), IdList(IdsOf(pages)), gone, EvenPositions(ids));
      }
      var ok := ShowFirst(ui);
      alert := if ok then UploadsComplete else UploadFailed;
    }

    /** The rows of every page's upload, in page order, as one batch. */
    method CollectUploads() returns (rows: seq<seq<Value>>)
      ensures rows == Batch(pages)
    {
      rows := [];
      var i := 0;
      while i < |pages|
        invariant 0 <= i <= |pages|
        invariant rows == Batch(pages[..i])
      {
        assert pages[..i + 1][..i] == pages[..i];
        rows := rows + pages[i].UploadToDrive();
        i := i + 1;
      }
      assert pages[..i] == pages;
    }

    /** `for (const page of this.pages) this.removePage(page)`. */
    method RemoveUploaded(store: Storage)
      requires Valid() && pages != []
      modifies this, store
      ensures Valid()
      ensures pages == OddPositions(old(pages))
      ensures store.items == old(store.items)[ListKey := IdList(IdsOf(pages))] - RemovedKeys(EvenPositions(old(IdsOf(pages))))
    {
      ghost var orig := pages;
      ghost var ids0 := IdsOf(pages);
      ghost var items0 := store.items;
      var i := 0;
      while i < |pages|
        invariant 0 <= i && 2 * i <= |orig| + 1
        invariant pages == Remaining(orig, i)
        invariant i == 0 ==> store.items == items0
        invariant i > 0 ==> store.items == items0[ListKey := IdList(IdsOf(pages))] - Gone(ids0, i)
        modifies this, store
        decreases |orig| + 1 - 2 * i
      {
        RemovalStep(orig, i);
        var page := pages[i];
        assert page.id == ids0[2 * i];
        ghost var before, prior := store.items, IdList(IdsOf(pages));
        RemovePage(page, store);
        ghost var list := IdList(IdsOf(pages));
        RemovalStoreStep(items0, before, prior, list, store.items, ids0, i);
        i := i + 1;
      }
      RemainingDone(orig, i);
      RemainingDistinct(orig, i);
      assert ids0[..Min(2 * i, |orig|)] == ids0;
    }

    /**
     * `removePage(page)` as intended: as `RemovePage`, but the record is
     * deleted under `"dive_page_" + id`, the key the page is saved under.
     */
    method RemovePageAndRecord(page: Page, store: Storage)
      modifies this, store
      ensures pages == Splice1(old(pages), IndexOf(old(pages), page))
      ensures store.items == old(store.items)[ListKey := IdList(IdsOf(pages))] - {PageKey(page.id)}
    {
      pages := Splice1(pages, IndexOf(pages, page));
      SaveToLocal(store);
      store.RemoveItem(PageKey(page.id));
    }

    /**
     * The removal loop as intended: it walks a copy of the list, so the
     * splices do not shift the pages it has still to visit, and it uses
     * `RemovePageAndRecord`. Every page leaves the list and its record leaves storage.
     */
    method RemoveAllUploaded(store: Storage)
      modifies this, store
      ensures pages == [] && Valid()
      ensures old(pages) != [] ==> store.items == old(store.items)[ListKey := IdList([])] - RecordKeys(old(IdsOf(pages)))
      ensures old(pages) == [] ==> store.items == old(store.items)
    {
      var uploaded := pages;
      ghost var ids0 := IdsOf(pages);
      ghost var items0 := store.items;
      var i := 0;
      while i < |uploaded|
        invariant 0 <= i <= |uploaded|
        invariant pages == uploaded[i..]
        invariant ids0 == IdsOf(uploaded)
        invariant store.items == CopyRemoved(items0, ids0, i)
      {
        RemoveNextUploaded(uploaded, i, store, items0, ids0);
        i := i + 1;
      }
      assert ids0[..i] == ids0 && ids0[i..] == [];
      assert i > 0 ==> store.items == items0[ListKey := IdList([])] - RecordKeys(ids0);
    }

    /** One pass of the removal loop over a copy: `removePage(uploaded[i])`, the corrected one. */
    method RemoveNextUploaded(uploaded: seq<Page>, i: nat, store: Storage,
                              ghost items0: map<string, Stored>, ghost ids0: seq<int>)
      requires i < |uploaded| && pages == uploaded[i..] && ids0 == IdsOf(uploaded)
      requires store.items == CopyRemoved(items0, ids0, i)
      modifies this, store
      ensures pages == uploaded[i + 1..] && ids0 == IdsOf(uploaded)
      ensures store.items == CopyRemoved(items0, ids0, i + 1)
    {
      var page := uploaded[i];
      assert page.id == ids0[i];
      ghost var before := store.items;
      SpliceFirst(pages);
      RemovePageAndRecord(page, store);
      assert pages == uploaded[i + 1..];
      IdsOfSuffix(uploaded, i + 1);
      CopyRemovalStoreStep(items0, before, store.items, ids0, i);
    }

    /**
     * The success branch of `retryUploads` as intended: every uploaded page and
     * its record removed, then one blank page listed and shown.
     */
    method ClearAllUploaded(store: Storage, ui: UI, now: int) returns (alert: Alert)
      requires pages != []
      modifies this, store, ui, ui.values
      ensures |pages| == 1 && fresh(pages[0])
      ensures pages[0].Record() == PageRecord(now, Metadata("", Num(now), "", "", "", ""), [])
      ensures forall j :: 0 <= j < |old(pages)| ==> old(pages)[j] !in pages
      ensures store.items == old(store.items)[ListKey := IdList([now])] - RecordKeys(old(IdsOf(pages)))
      ensures forall j :: 0 <= j < |old(pages)| ==> PageKey(old(IdsOf(pages))[j]) !in store.items
      ensures Shows(ui, pages[0])
      ensures alert == UploadsComplete <==> Fits(pages[0].rows, ui)
      ensures alert != UploadsComplete ==> alert == UploadFailed
      ensures Valid()
    {
      ghost var ids := IdsOf(pages);
      RemoveAllUploaded(store);
      ghost var emptied := store.items;
      var page := new Page.Blank(now);
      AddPage(page, store);
      assert IdsOf(pages) == [now];
      RecordKeysFacts(ids);
      Relist(old(store.items), IdList([]), IdList([now]), RecordKeys(ids));
      NoRecordLeft(old(store.items), IdList([now]), ids);
      var ok := ShowFirst(ui);
      alert := if ok then UploadsComplete else UploadFailed;
    }
  }

  function Min(a: int, b: int): int
  {
    if a <= b then a else b
  }

  /** The list after `i` passes of the removal loop: pass `j` splices out index `j`. */
  function Remaining<T>(orig: seq<T>, i: nat): seq<T>
  {
    if i == 0 then orig else Splice1(Remaining(orig, i - 1), i - 1)
  }

  /** The same list in closed form: the odd positions of the first `2 * i`, then the rest as it was. */
  function SkipPattern<T>(orig: seq<T>, i: nat): seq<T>
  {
    var m := Min(2 * i, |orig|);
    OddPositions(orig[..m]) + orig[m..]
  }

  lemma {:induction false} RemainingClosed<T>(orig: seq<T>, i: nat)
    requires 2 * i <= |orig| + 1
    ensures Remaining(orig, i) == SkipPattern(orig, i)
  {
    if i > 0 {
      RemainingClosed(orig, i - 1);
      RemovalSplice(orig, i - 1);
    } else {
      assert orig[..0] == [] && orig[0..] == orig;
    }
  }

  lemma RemainingLength<T>(orig: seq<T>, i: nat)
    requires 2 * i <= |orig| + 1
    ensures |Remaining(orig, i)| == if 2 * i <= |orig| then |orig| - i else i - 1
  {
    RemainingClosed(orig, i);
  }

  /** The removal loop stops with the pages at odd positions left. */
  lemma RemainingDone<T>(orig: seq<T>, i: nat)
    requires 2 * i <= |orig| + 1 && |Remaining(orig, i)| <= i
    ensures Remaining(orig, i) == OddPositions(orig) && |orig| <= 2 * i
  {
    RemainingLength(orig, i);
    RemainingClosed(orig, i);
    assert orig[..Min(2 * i, |orig|)] == orig;
  }

  /** A pass of the removal loop finds `orig[2 * i]` at index `i`, and finds it there first. */
  lemma RemovalStep(orig: seq<Page>, i: nat)
    requires Distinct(orig) && 2 * i <= |orig| + 1 && i < |Remaining(orig, i)|
    ensures 2 * i < |orig|
    ensures Remaining(orig, i)[i] == orig[2 * i] && IndexOf(Remaining(orig, i), orig[2 * i]) == i
  {
    RemainingLength(orig, i);
    RemainingClosed(orig, i);
    var ps := Remaining(orig, i);
    assert ps == OddPositions(orig[..2 * i]) + orig[2 * i..];
    assert ps[i] == orig[2 * i];
    forall j | 0 <= j < i ensures ps[j] != orig[2 * i] {
      assert ps[j] == orig[2 * j + 1];
    }
  }

  lemma RemovalSplice<T>(orig: seq<T>, i: nat)
    requires 2 * i < |orig|
    ensures Splice1(SkipPattern(orig, i), i) == SkipPattern(orig, i + 1)
  {
    var odd := OddPositions(orig[..2 * i]);
    var ps := SkipPattern(orig, i);
    assert ps == odd + orig[2 * i..];
    var r := Splice1(ps, i);
    assert r == ps[..i] + ps[i + 1..];
    assert ps[..i] == odd;
    assert ps[i + 1..] == orig[2 * i + 1..];
    if 2 * i + 2 <= |orig| {
      assert OddPositions(orig[..2 * i + 2]) == odd + [orig[2 * i + 1]];
      assert orig[2 * i + 1..] == [orig[2 * i + 1]] + orig[2 * i + 2..];
    } else {
      assert OddPositions(orig[..|orig|]) == odd;
    }
  }

  /** What the removal loop leaves is distinct when the list was. */
  lemma RemainingDistinct(orig: seq<Page>, i: nat)
    requires Distinct(orig) && 2 * i <= |orig| + 1
    ensures Distinct(Remaining(orig, i))
  {
    var m := Min(2 * i, |orig|);
    RemainingClosed(orig, i);
    var r := SkipPattern(orig, i);
    var h := |OddPositions(orig[..m])|;
    forall a, b | 0 <= a < b < |r| ensures r[a] != r[b] {
      var ia := if a < h then 2 * a + 1 else a - h + m;
      var ib := if b < h then 2 * b + 1 else b - h + m;
      assert r[a] == orig[ia] && r[b] == orig[ib];
    }
  }

  /** The `page_` keys removed in the first `i` passes of the removal loop over pages with ids `ids`: those at even positions. */
  function Gone(ids: seq<int>, i: nat): set<string>
    requires 2 * i <= |ids| + 1
  {
    RemovedKeys(EvenPositions(ids[..Min(2 * i, |ids|)]))
  }

  lemma GoneNone(ids: seq<int>)
    ensures Gone(ids, 0) == {}
  {
    assert EvenPositions(ids[..0]) == [];
  }

  lemma GoneNotList(ids: seq<int>, i: nat)
    requires 2 * i <= |ids| + 1
    ensures ListKey !in Gone(ids, i)
  {
    RemovedKeysArePageUnderscore(EvenPositions(ids[..Min(2 * i, |ids|)]), 0);
  }

  /** One more pass of the removal loop removes the key of one more even position. */
  lemma GoneStep(ids: seq<int>, i: nat)
    requires 0 < i && 2 * i <= |ids| + 1
    ensures Gone(ids, i) == Gone(ids, i - 1) + {RemovedKey(ids[2 * (i - 1)])}
  {
    var prev := EvenPositions(ids[..Min(2 * (i - 1), |ids|)]);
    EvenPositionsSnoc(ids, i);
    RemovedKeysSnoc(prev, ids[2 * (i - 1)]);
  }

  lemma RemovedKeysSnoc(s: seq<int>, k: int)
    ensures RemovedKeys(s + [k]) == RemovedKeys(s) + {RemovedKey(k)}
  {
    assert (s + [k])[..|s|] == s;
  }

  /** One more pass of the removal loop adds one even position. */
  lemma EvenPositionsSnoc(ids: seq<int>, i: nat)
    requires 0 < i && 2 * i <= |ids| + 1
    ensures EvenPositions(ids[..Min(2 * i, |ids|)])
         == EvenPositions(ids[..Min(2 * (i - 1), |ids|)]) + [ids[2 * (i - 1)]]
  {
    var prev := EvenPositions(ids[..2 * (i - 1)]);
    var e := EvenPositions(ids[..Min(2 * i, |ids|)]);
    assert |e| == i && |prev| == i - 1;
    forall j | 0 <= j < i ensures e[j] == (prev + [ids[2 * (i - 1)]])[j] {
      if j < i - 1 {
        assert e[j] == ids[2 * j] == prev[j];
      }
    }
  }

  /** Saving the list again after the removals is the same as saving it once before them. */
  lemma ListAfterRemoval(items0: map<string, Stored>, items: map<string, Stored>, prior: Stored, list: Stored,
                         gone: set<string>, ids: seq<int>)
    requires gone == RemovedKeys(ids) && items == items0[ListKey := prior] - gone
    ensures items[ListKey := list] == items0[ListKey := list] - gone
  {
    RemovedKeysArePageUnderscore(ids, 0);
  }

  /** The store after pass `i` of the removal loop, from the store before it. */
  lemma RemovalStoreStep(items0: map<string, Stored>, before: map<string, Stored>, prior: Stored, list: Stored,
                         after: map<string, Stored>, ids: seq<int>, i: nat)
    requires 2 * (i + 1) <= |ids| + 1
    requires i == 0 ==> before == items0
    requires i > 0 ==> before == items0[ListKey := prior] - Gone(ids, i)
    requires after == before[ListKey := list] - {RemovedKey(ids[2 * i])}
    ensures after == items0[ListKey := list] - Gone(ids, i + 1)
  {
    GoneFacts(ids, i);
    StoreStep(items0, before, prior, list, Gone(ids, i), Gone(ids, i + 1), RemovedKey(ids[2 * i]), i == 0);
  }

  /** What pass `i` of the removal loop adds to the removed keys, and what it leaves alone. */
  lemma GoneFacts(ids: seq<int>, i: nat)
    requires 2 * (i + 1) <= |ids| + 1
    ensures Gone(ids, i + 1) == Gone(ids, i) + {RemovedKey(ids[2 * i])}
    ensures ListKey !in Gone(ids, i) && RemovedKey(ids[2 * i]) != ListKey
    ensures i == 0 ==> Gone(ids, i) == {}
  {
    GoneStep(ids, i + 1);
    GoneNotList(ids, i);
    KeysDiffer(ids[2 * i], 0);
    if i == 0 { GoneNone(ids); }
  }

  lemma StoreStep(items0: map<string, Stored>, before: map<string, Stored>, prior: Stored, list: Stored,
                  gone: set<string>, gone': set<string>, k: string, first: bool)
    requires ListKey !in gone && k != ListKey && gone' == gone + {k}
    requires first ==> before == items0 && gone == {}
    requires !first ==> before == items0[ListKey := prior] - gone
    ensures before[ListKey := list] - {k} == items0[ListKey := list] - gone'
  {
    if first {
      assert gone' == {k};
    }
  }

  /**
   * `new Pages()` to the end: the pages loaded or captured and the storage as
   * the constructor leaves them, then `pages[0]` shown, or the TypeError of an
   * empty list with the screen left as it was.
   */
  method Open(store: Storage, ui: UI, now: int) returns (list: Pages, ok: bool)
    requires ui.Valid()
    modifies store, ui, ui.values
    ensures fresh(list) && list.Valid()
    ensures Opened(old(store.items), old(UIMetadata(ui.site, ui.date, ui.manager, ui.boat, ui.weather, ui.comments)),
                   old(ui.values[..]), ui.checked[..], now, RecordsOf(list.pages), store.items)
    ensures |list.pages| > 0 ==> ListSaved(store.items, IdsOf(list.pages))
    ensures |list.pages| == 0 ==> !ok && ui.values[..] == old(ui.values[..])
    ensures |list.pages| > 0 ==> Shows(ui, list.pages[0]) && (ok <==> Fits(list.pages[0].rows, ui))
    ensures StoredIds(old(store.items)) != Some([]) ==> |list.pages| > 0
  {
    list := new Pages(store, ui, now);
    ok := list.ShowFirst(ui);
  }
}
