/** The write-back page cache of `src/pager.c` in front of a file of pages. */
module Pagers {
  import opened Rows
  import opened Pages
  import opened Trees

  class Pager {
    var file: seq<Page>
    var cache: map<nat, Page>
    var dirty: set<nat>
    var numPages: nat

    ghost predicate Valid()
      reads this
    {
      && |file| <= numPages
      && dirty <= cache.Keys
      && (forall p :: p in cache ==> p < numPages && p < TABLES_MAX_PAGES)
      && (forall p: nat :: |file| <= p < numPages ==> p in cache)
    }

    /** The pages as a reader sees them: a cached page hides its copy in the file. */
    ghost function Heap(): (h: Heap)
      reads this
    {
      (map p | 0 <= p < |file| :: file[p]) + cache
    }

    /** Writing the dirty pages back would lose nothing but parent fields, the pages in
        `pending` aside. */
    ghost predicate RecoverableBut(pending: set<nat>)
      reads this
    {
      forall p :: p in cache && p !in dirty && p !in pending ==> p < |file| && SameButParent(file[p], cache[p])
    }

    ghost predicate Recoverable()
      reads this
    {
      RecoverableBut({})
    }

    /** `pager_open` on an existing or empty file. */
    constructor Open(content: seq<Page>)
      ensures Valid() && Recoverable()
      ensures file == content && numPages == |content| && cache == map[] && dirty == {}
      ensures Heap() == map p | 0 <= p < |content| :: content[p]
    {
      file := content;
      numPages := |content|;
      cache := map[];
      dirty := {};
    }

    /** `pager_get_page` on a page that exists: read it from the file unless it is cached. */
    method Fetch(p: nat) returns (page: Page)
      requires Valid() && p in Heap() && p < TABLES_MAX_PAGES
      modifies this`cache
      ensures Valid() && page == old(Heap())[p] && Heap() == old(Heap())
      ensures cache == old(cache)[p := page]
      ensures old(Recoverable()) ==> Recoverable()
      ensures old(RecoverableBut({0})) ==> RecoverableBut({0})
    {
      if p !in cache {
        cache := cache[p := file[p]];
      }
      page := cache[p];
    }

    /** `pager_get_page`: a page that does not exist comes into being, zeroed. Only the page right
        after the last one leaves no gap. */
    method GetPage(p: nat) returns (r: Option<Page>)
      requires Valid()
      modifies this`cache, this`numPages
      ensures (r.Some? <==> p < TABLES_MAX_PAGES) && (p <= old(numPages) ==> Valid())
      ensures r.None? ==> cache == old(cache) && numPages == old(numPages)
      ensures r.Some? ==> r.value == if p in old(Heap()) then old(Heap())[p] else ZERO_PAGE
      ensures r.Some? ==> cache == old(cache)[p := r.value]
      ensures r.Some? ==> numPages == if p < old(numPages) then old(numPages) else p + 1
    {
      if p >= TABLES_MAX_PAGES {
        return None;
      }
      if p in cache || p < |file| {
        var page := Fetch(p);
        return Some(page);
      }
      assert p !in Heap();
      cache := cache[p := ZERO_PAGE];
      if p >= numPages {
        numPages := p + 1;
      }
      r := Some(ZERO_PAGE);
    }

    /** `pager_get_page(pager, pager->num_pages)`: the next page past the last one, zeroed. */
    method GetFreshPage() returns (ok: bool, p: nat)
      requires Valid()
      modifies this`cache, this`numPages
      ensures Valid() && p == old(numPages) && p !in old(Heap()) && p >= |file|
      ensures ok <==> p < TABLES_MAX_PAGES
      ensures numPages == if ok then p + 1 else p
      ensures cache == if ok then old(cache)[p := ZERO_PAGE] else old(cache)
      ensures Heap() == if ok then old(Heap())[p := ZERO_PAGE] else old(Heap())
    {
      p := numPages;
      var r := GetPage(p);
      ok := r.Some?;
    }

    /** A store through the pointer `pager_get_page` returned. */
    method Write(p: nat, page: Page)
      requires Valid() && p in cache
      modifies this`cache
      ensures Valid() && cache == old(cache)[p := page] && Heap() == old(Heap())[p := page]
    {
      cache := cache[p := page];
    }

    method MarkDirty(p: nat)
      requires Valid() && p in cache
      modifies this`dirty
      ensures Valid() && dirty == old(dirty) + {p} && Heap() == old(Heap())
    {
      dirty := dirty + {p};
    }

    /** `pager_flush`: writing past the end extends the file with zero pages. */
    method Flush(p: nat)
      requires p in cache
      modifies this`file
      ensures |file| == if p < |old(file)| then |old(file)| else p + 1
      ensures file[p] == cache[p]
      ensures forall i :: 0 <= i < |file| && i != p ==> file[i] == if i < |old(file)| then old(file)[i] else ZERO_PAGE
    {
      if p < |file| {
        file := file[p := cache[p]];
      } else {
        file := file + seq(p - |file|, _ => ZERO_PAGE) + [cache[p]];
      }
    }

    /** `pager_close`: every dirty page reaches the file, nothing else does. */
    method Close()
      requires Valid()
      modifies this`file
      ensures |old(file)| <= |file| <= numPages
      ensures forall p :: p in dirty ==> p < |file| && file[p] == cache[p]
      ensures forall p :: 0 <= p < |file| && p !in dirty ==> file[p] == if p < |old(file)| then old(file)[p] else ZERO_PAGE
    {
      var i := 0;
      while i < TABLES_MAX_PAGES
        invariant i <= TABLES_MAX_PAGES
        invariant |old(file)| <= |file| <= numPages
        invariant forall p :: p in dirty && p < i ==> p < |file| && file[p] == cache[p]
        invariant forall p :: 0 <= p < |file| && (p !in dirty || p >= i) ==> file[p] == if p < |old(file)| then old(file)[p] else ZERO_PAGE
      {
        if i in dirty {
          Flush(i);
        }
        i := i + 1;
      }
    }
  }

  /** `pager_close` followed by `pager_open` on the same file: of a recoverable pager every page comes
      back, and no others do; a page can differ only in its parent field. */
  method CloseAndReopen(pager: Pager) returns (again: Pager)
    requires pager.Valid() && pager.Recoverable()
    modifies pager`file
    ensures again.Valid() && again.Recoverable() && fresh(again)
    ensures again.numPages == pager.numPages && again.cache == map[] && again.dirty == {}
    ensures again.Heap().Keys == old(pager.Heap()).Keys
    ensures forall p :: p in old(pager.Heap()) ==> SameButParent(again.Heap()[p], old(pager.Heap())[p])
    ensures forall p :: p in pager.dirty ==> p in old(pager.Heap()) && again.Heap()[p] == old(pager.Heap())[p]
    ensures forall p :: p in old(pager.Heap()) && p !in pager.dirty ==>
              p < |old(pager.file)| && again.Heap()[p] == old(pager.file)[p]
  {
    ghost var h: Heap := pager.Heap();
    assert pager.numPages > |pager.file| ==> pager.numPages - 1 in pager.cache && pager.numPages - 1 in pager.dirty;
    pager.Close();
    again := new Pager.Open(pager.file);
    forall p | p in h
      ensures p in again.Heap() && SameButParent(again.Heap()[p], h[p])
    {
    }
  }
}
