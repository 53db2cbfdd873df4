/**
 * The `File` collaborator, seen only through the calls the buffer manager
 * makes on it: readPage, writePage, allocatePage and deletePage. All open
 * files are one object keyed by (file, page number); a ghost log records
 * every write and delete so write-backs can be counted.
 */
module Storage {
  import opened Types

  /** The effect of one logged call on the stored pages. */
  function ApplyEvent(pages: map<Key, Page>, e: IoEvent): map<Key, Page> {
    match e
    case Write(f, pg) => pages[(f, pg.number) := pg]
    case Delete(f, p) => pages - {(f, p)}
  }

  /** The stored pages after replaying `log` in order. */
  function Replay(pages: map<Key, Page>, log: seq<IoEvent>): map<Key, Page> {
    if log == [] then pages else ApplyEvent(Replay(pages, log[..|log| - 1]), log[|log| - 1])
  }

  /** How many times `e` appears in `log`. */
  function Occurrences(log: seq<IoEvent>, e: IoEvent): nat {
    if log == [] then 0 else Occurrences(log[..|log| - 1], e) + (if log[|log| - 1] == e then 1 else 0)
  }

  /** Writes to pages that exist neither add nor remove a page. */
  lemma {:induction false} ReplayWritesKeepKeys(pages: map<Key, Page>, log: seq<IoEvent>)
    requires forall e | e in log :: e.Write? && (e.file, e.page.number) in pages
    ensures Replay(pages, log).Keys == pages.Keys
  {
    if log != [] {
      ReplayWritesKeepKeys(pages, log[..|log| - 1]);
    }
  }

  /** Replaying one more event applies it to what the shorter log left. */
  lemma ReplayAppend(pages: map<Key, Page>, log: seq<IoEvent>, e: IoEvent)
    ensures Replay(pages, log + [e]) == ApplyEvent(Replay(pages, log), e)
  {
    assert (log + [e])[..|log|] == log;
  }

  /** Writes to other keys leave page `k` as it was. */
  lemma {:induction false} ReplayOtherKey(pages: map<Key, Page>, log: seq<IoEvent>, k: Key)
    requires forall e | e in log :: e.Write? && (e.file, e.page.number) != k
    ensures k in Replay(pages, log) <==> k in pages
    ensures k in pages ==> Replay(pages, log)[k] == pages[k]
  {
    if log != [] {
      ReplayOtherKey(pages, log[..|log| - 1], k);
    }
  }

  class Files {
    /** The pages on disk, by (file, page number). */
    var pages: map<Key, Page>
    /** How many page numbers each file has handed out (page numbers start at 1). */
    var handedOut: map<FileId, nat>
    /** Every writePage and deletePage call, in order. */
    ghost var log: seq<IoEvent>

    function NextPageNo(f: FileId): PageId
      reads this
    {
      (if f in handedOut then handedOut[f] else 0) + 1
    }

    /** A stored page carries its own number, and it is one the file has handed out. */
    ghost predicate Valid()
      reads this
    {
      forall k | k in pages :: pages[k].number == k.1 && k.1 < NextPageNo(k.0)
    }

    constructor ()
      ensures Valid() && pages == map[] && log == []
    {
      pages, handedOut, log := map[], map[], [];
    }

    /** `File::readPage`: the stored page, or InvalidPage when the file has no such page. */
    method ReadPage(f: FileId, p: PageId) returns (r: Result<Page>)
      requires Valid()
      ensures r.Ok? <==> (f, p) in pages
      ensures r.Ok? ==> r.value == pages[(f, p)] && r.value.number == p
      ensures r.Err? ==> r.error == InvalidPage
    {
      if (f, p) in pages {
        r := Ok(pages[(f, p)]);
      } else {
        r := Err(InvalidPage);
      }
    }

    /** `File::writePage`: store `page` under its own number, in a page the file has. */
    method WritePage(f: FileId, page: Page)
      requires Valid() && (f, page.number) in pages
      modifies this
      ensures Valid()
      ensures pages == ApplyEvent(old(pages), Write(f, page)) && log == old(log) + [Write(f, page)]
    {
      pages := pages[(f, page.number) := page];
      log := log + [Write(f, page)];
    }

    /** `File::allocatePage`: an empty page under a number the file does not hold. */
    method AllocatePage(f: FileId) returns (page: Page)
      requires Valid()
      modifies this
      ensures Valid() && log == old(log)
      ensures (f, page.number) !in old(pages) && page.number != InvalidPageNo && page.data == []
      ensures pages == old(pages)[(f, page.number) := page]
    {
      page := Page(NextPageNo(f), []);
      handedOut := handedOut[f := page.number];
      pages := pages[(f, page.number) := page];
    }

    /** `File::deletePage`: remove a page the file has. */
    method DeletePage(f: FileId, p: PageId)
      requires Valid() && (f, p) in pages
      modifies this
      ensures Valid()
      ensures pages == ApplyEvent(old(pages), Delete(f, p)) && log == old(log) + [Delete(f, p)]
    {
      pages := pages - {(f, p)};
      log := log + [Delete(f, p)];
    }
  }
}
