/**
 * The in-memory page store of
 * packages/mcp-html-artifacts-preview/src/page-store.ts: a keyed collection
 * of page records that iterates in insertion order, like the JavaScript
 * `Map` it is built on.
 *
 * Two foreign calls become parameters: the fresh `randomUUID()` is an `id`
 * that the caller guarantees is not yet a key, and `new Date()` is an
 * integer clock reading `now`.
 */
module PageStoreModel {
  import opened Options

  datatype Page = Page(id: string, title: string, html: string, createdAt: int, updatedAt: int)

  datatype CreatePageParams = CreatePageParams(title: string, html: string)

  /** `None` is a field the caller left out (`undefined`). */
  datatype UpdatePageParams = UpdatePageParams(title: Option<string>, html: Option<string>)

  /** The records stored under `keys`, in the order of `keys`. */
  function ValuesOf(keys: seq<string>, m: map<string, Page>): (r: seq<Page>)
    requires forall k :: k in keys ==> k in m
    ensures |r| == |keys|
    ensures forall i :: 0 <= i < |keys| ==> r[i] == m[keys[i]]
  {
    if keys == [] then [] else [m[keys[0]]] + ValuesOf(keys[1..], m)
  }

  /** No key occurs twice. */
  ghost predicate Distinct(keys: seq<string>) {
    forall i, j :: 0 <= i < j < |keys| ==> keys[i] != keys[j]
  }

  /** A sequence without repetitions has as many elements as its set. */
  lemma {:induction false} DistinctCardinality(keys: seq<string>)
    requires Distinct(keys)
    ensures |set k | k in keys| == |keys|
  {
    if keys != [] {
      var tail := keys[1..];
      assert Distinct(tail) by {
        forall i, j | 0 <= i < j < |tail| ensures tail[i] != tail[j] {
          assert tail[i] == keys[i + 1] && tail[j] == keys[j + 1];
        }
      }
      DistinctCardinality(tail);
      assert keys[0] !in tail by {
        forall i | 0 <= i < |tail| ensures tail[i] != keys[0] {
          assert tail[i] == keys[i + 1];
        }
      }
      assert (set k | k in keys) == (set k | k in tail) + {keys[0]} by {
        assert keys == [keys[0]] + tail;
      }
    }
  }

  /** The store's invariant: records sit under their own id, and `order` lists each key once. */
  ghost predicate WellFormed(pages: map<string, Page>, order: seq<string>) {
    && (forall id :: id in pages ==> pages[id].id == id)
    && (forall id :: id in order <==> id in pages)
    && Distinct(order)
  }

  /** Listing reports every stored record exactly once, in the order of `order`. */
  lemma ListedOnce(pages: map<string, Page>, order: seq<string>)
    requires WellFormed(pages, order)
    ensures |ValuesOf(order, pages)| == |pages|
    ensures forall i :: 0 <= i < |order| ==> ValuesOf(order, pages)[i].id == order[i]
    ensures forall i, j :: 0 <= i < j < |order| ==> ValuesOf(order, pages)[i].id != ValuesOf(order, pages)[j].id
    ensures forall id :: id in pages ==> pages[id] in ValuesOf(order, pages)
    ensures forall p :: p in ValuesOf(order, pages) ==> p.id in pages && pages[p.id] == p
  {
    var r := ValuesOf(order, pages);
    assert |pages| == |order| by {
      DistinctCardinality(order);
      assert (set k | k in order) == pages.Keys;
    }
    forall i | 0 <= i < |order| ensures r[i].id == order[i] {
      assert r[i] == pages[order[i]];
    }
    forall i, j | 0 <= i < j < |order| ensures r[i].id != r[j].id {
      assert r[i].id == order[i] && r[j].id == order[j];
    }
    forall id | id in pages ensures pages[id] in r {
      var i :| 0 <= i < |order| && order[i] == id;
      assert r[i] == pages[id];
    }
    forall p | p in r ensures p.id in pages && pages[p.id] == p {
      var i :| 0 <= i < |r| && r[i] == p;
      assert p == pages[order[i]];
    }
  }

  /** Inserting a fresh key appends its record to the listing. */
  lemma {:induction false} ValuesOfInsert(keys: seq<string>, m: map<string, Page>, k: string, p: Page)
    requires forall x :: x in keys ==> x in m
    requires k !in keys
    ensures ValuesOf(keys + [k], m[k := p]) == ValuesOf(keys, m) + [p]
  {
    if keys == [] {
      assert keys + [k] == [k];
    } else {
      assert (keys + [k])[1..] == keys[1..] + [k];
      ValuesOfInsert(keys[1..], m, k, p);
    }
  }

  /** Replacing the record under a listed key changes the listing at that key's position only. */
  lemma ValuesOfReplace(keys: seq<string>, m: map<string, Page>, k: string, p: Page)
    requires forall x :: x in keys ==> x in m
    requires k in m
    ensures forall i :: 0 <= i < |keys| ==>
      ValuesOf(keys, m[k := p])[i] == if keys[i] == k then p else ValuesOf(keys, m)[i]
  {
  }

  /** Inserting a fresh key keeps the invariant. */
  lemma WellFormedInsert(pages: map<string, Page>, order: seq<string>, p: Page)
    requires WellFormed(pages, order) && p.id !in pages
    ensures WellFormed(pages[p.id := p], order + [p.id])
  {
    var o := order + [p.id];
    forall i, j | 0 <= i < j < |o| ensures o[i] != o[j] {
      if j == |order| {
        assert o[i] == order[i];
      }
    }
  }

  class PageStore {
    /** The records, by id. */
    var pages: map<string, Page>
    /** The ids in the order they were inserted, which is the order `list` reports. */
    var order: seq<string>

    ghost predicate Valid()
      reads this
    {
      WellFormed(pages, order)
    }

    /** Every record's timestamps are in order. */
    ghost predicate TimesOrdered()
      reads this
    {
      forall id :: id in pages ==> pages[id].createdAt <= pages[id].updatedAt
    }

    constructor ()
      ensures Valid() && TimesOrdered()
      ensures pages == map[] && order == []
      ensures List() == []
    {
      pages := map[];
      order := [];
    }

    /** `list()`: the stored records in insertion order (see `ListedOnce`). */
    function List(): (r: seq<Page>)
      reads this
      requires Valid()
      ensures |r| == |order|
      ensures forall i :: 0 <= i < |r| ==> r[i] == pages[order[i]]
    {
      ValuesOf(order, pages)
    }

    /** `get(id)`: the record under `id`, or nothing. */
    function Get(id: string): (r: Option<Page>)
      reads this
      requires Valid()
      ensures r.Some? <==> id in pages
      ensures r.Some? ==> r.value.id == id && r.value == pages[id]
    {
      if id in pages then Some(pages[id]) else None
    }

    /** `create(params)`: stores a new record under the fresh `id`, both timestamps `now`. */
    method Create(params: CreatePageParams, id: string, now: int) returns (page: Page)
      requires Valid()
      requires id !in pages
      modifies this
      ensures Valid()
      ensures page.id == id && page.title == params.title && page.html == params.html
      ensures page.createdAt == now && page.updatedAt == now
      ensures pages == old(pages)[id := page]
      ensures order == old(order) + [id]
      ensures List() == old(List()) + [page]
      ensures old(TimesOrdered()) ==> TimesOrdered()
    {
      page := Page(id, params.title, params.html, now, now);
      WellFormedInsert(pages, order, page);
      ValuesOfInsert(order, pages, id, page);
      pages := pages[id := page];
      order := order + [id];
    }

    /**
     * `update(id, params)`: overwrites the fields that are given, stamps
     * `updatedAt` with `now`, and leaves everything else as it was; nothing
     * changes when `id` is unknown.
     */
    method Update(id: string, params: UpdatePageParams, now: int) returns (r: Option<Page>)
      requires Valid()
      modifies this
      ensures Valid()
      ensures order == old(order)
      ensures id !in old(pages) ==> r == None && pages == old(pages)
      ensures id in old(pages) ==>
        && r.Some?
        && r.value.id == id
        && r.value.title == params.title.GetOr(old(pages[id].title))
        && r.value.html == params.html.GetOr(old(pages[id].html))
        && r.value.createdAt == old(pages[id].createdAt)
        && r.value.updatedAt == now
        && pages == old(pages)[id := r.value]
      ensures id in old(pages) ==>
        forall i :: 0 <= i < |order| ==> List()[i] == if order[i] == id then r.value else old(List())[i]
      ensures id in old(pages) && now >= old(pages[id].updatedAt) ==>
        r.value.updatedAt >= old(pages[id].updatedAt)
      ensures id in old(pages) && old(TimesOrdered()) && now >= old(pages[id].updatedAt) ==>
        TimesOrdered()
    {
      if id !in pages {
        return None;
      }
      var page := pages[id];
      if params.title.Some? {
        page := page.(title := params.title.value);
      }
      if params.html.Some? {
        page := page.(html := params.html.value);
      }
      page := page.(updatedAt := now);
      ValuesOfReplace(order, pages, id, page);
      pages := pages[id := page];
      return Some(page);
    }
  }
}
