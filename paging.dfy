/** The pager: a file and a sparse cache of TableMaxPages page buffers, filled
    lazily by getPage. The file is a byte sequence; the operating-system calls
    (Stat, Seek, Read, WriteAt) are the pure functions below and never fail. */
module Paging {
  import opened Layout
  import opened RowCodec

  datatype Error = ErrFail
  datatype Result<T> = Ok(value: T) | Err(error: Error)

  /** The pager as a value: the file's bytes and the cached pages by page number. */
  datatype PagerImage = PagerImage(file: seq<byte>, cache: map<nat, seq<byte>>)

  predicate ValidImage(st: PagerImage)
  {
    forall p :: p in st.cache ==> p < TableMaxPages && |st.cache[p]| == PageSize
  }

  /** A zero-filled page buffer after Seek(offset) and one Read: the file's bytes
      from offset on, and zeros past the end of the file. */
  function ReadWindow(file: seq<byte>, offset: nat): (page: seq<byte>)
    ensures |page| == PageSize
  {
    seq(PageSize, i requires 0 <= i < PageSize => if offset + i < |file| then file[offset + i] else 0)
  }

  /** numPages as getPage computes it from uint32(fstat.Size()): it adds one page
      when the size is a multiple of PageSize, the reverse of rounding up. */
  function PageCountGuess(fileSize: nat): (numPages: nat)
  {
    var fsize := fileSize % Uint32Modulus;
    fsize / PageSize + (if fsize % PageSize == 0 then 1 else 0)
  }

  /** The numPages computation is inverted: a file of exactly one page counts
      two pages, and a file one byte longer counts one. */
  lemma PageCountGuessInverted()
    ensures PageCountGuess(PageSize) == 2 && PageCountGuess(PageSize + 1) == 1
  {
  }

  /** The buffer getPage caches on a first fetch of page pageNum. */
  function LoadedPage(file: seq<byte>, pageNum: nat): (page: seq<byte>)
    ensures |page| == PageSize
  {
    var loads := pageNum <= PageCountGuess(|file|);
    seq(PageSize, i requires 0 <= i < PageSize =>
      if loads && pageNum * PageSize + i < |file| then file[pageNum * PageSize + i] else 0)
  }

  /** Despite the inverted page count, a first fetch yields the file's bytes from
      pageNum * PageSize on, zero-filled past the end of the file, whenever the file
      size fits the uint32 the code truncates it to. */
  lemma LoadedPageIsWindow(file: seq<byte>, pageNum: nat)
    requires |file| < Uint32Modulus
    ensures LoadedPage(file, pageNum) == ReadWindow(file, pageNum * PageSize)
  {
    var size := |file|;
    if pageNum > PageCountGuess(size) {
      assert size % Uint32Modulus == size;
      assert pageNum >= size / PageSize + 1;
      assert pageNum * PageSize >= (size / PageSize + 1) * PageSize;
      assert (size / PageSize + 1) * PageSize > size;
    }
  }

  /** The bytes a reader of page p sees: the cached buffer, or what a first fetch would load. */
  function PageOf(st: PagerImage, p: nat): (page: seq<byte>)
    requires ValidImage(st) && p < TableMaxPages
    ensures |page| == PageSize
  {
    if p in st.cache then st.cache[p] else LoadedPage(st.file, p)
  }

  /** The image after getPage(p) has succeeded. */
  function LoadImage(st: PagerImage, p: nat): (r: PagerImage)
    requires ValidImage(st) && p < TableMaxPages
    ensures ValidImage(r) && r.file == st.file && p in r.cache
    ensures r.cache.Keys == st.cache.Keys + {p}
  {
    if p in st.cache then st else PagerImage(st.file, st.cache[p := LoadedPage(st.file, p)])
  }

  /** Loading a page changes what no reader sees. */
  lemma LoadKeepsContents(st: PagerImage, p: nat)
    requires ValidImage(st) && p < TableMaxPages
    ensures SameContents(LoadImage(st, p), st)
  {
  }

  /** Two images that no reader can tell apart: same file, same bytes on every page. */
  predicate SameContents(st1: PagerImage, st2: PagerImage)
    requires ValidImage(st1) && ValidImage(st2)
  {
    st1.file == st2.file && forall p :: 0 <= p < TableMaxPages ==> PageOf(st1, p) == PageOf(st2, p)
  }

  lemma SameContentsTrans(st1: PagerImage, st2: PagerImage, st3: PagerImage)
    requires ValidImage(st1) && ValidImage(st2) && ValidImage(st3)
    requires SameContents(st1, st2) && SameContents(st2, st3)
    ensures SameContents(st1, st3)
  {
  }

  /** The file after File.WriteAt(data, offset): data replaces the bytes at offset,
      the file grows when data ends past it, and a gap before offset reads as zeros. */
  function Written(file: seq<byte>, data: seq<byte>, offset: nat): (r: seq<byte>)
    ensures |r| == Max(|file|, offset + |data|)
  {
    seq(Max(|file|, offset + |data|), i requires 0 <= i < Max(|file|, offset + |data|) =>
      if offset <= i < offset + |data| then data[i - offset]
      else if i < |file| then file[i] else 0)
  }

  /** Seek(offset) then Read(page) into a zero-filled buffer. */
  method ReadFile(file: seq<byte>, offset: nat, page: array<byte>)
    requires page.Length == PageSize
    requires forall i :: 0 <= i < PageSize ==> page[i] == 0
    modifies page
    ensures page[..] == ReadWindow(file, offset)
  {
    var n := if offset < |file| then Min(|file| - offset, PageSize) else 0;
    forall k | 0 <= k < n {
      page[k] := file[offset + k];
    }
  }

  class Pager {
    var file: seq<byte>
    const pages: array<array?<byte>>
    ghost var Repr: set<object>

    ghost predicate Valid()
      reads this, Repr
      ensures Valid() ==> this in Repr
    {
      this in Repr && pages in Repr && pages.Length == TableMaxPages
      && (forall p :: 0 <= p < TableMaxPages && pages[p] != null ==>
            pages[p] in Repr && pages[p].Length == PageSize)
      && (forall p, q :: 0 <= p < TableMaxPages && 0 <= q < TableMaxPages && p != q && pages[p] != null ==>
            pages[p] != pages[q])
    }

    /** The pager's state as a value. */
    ghost function Image(): (st: PagerImage)
      requires Valid()
      reads this, Repr
      ensures ValidImage(st) && st.file == file
      ensures forall p :: 0 <= p < TableMaxPages ==> (p in st.cache <==> pages[p] != null)
      ensures forall p :: 0 <= p < TableMaxPages && pages[p] != null ==> st.cache[p] == pages[p][..]
    {
      PagerImage(file, map p: nat | p < TableMaxPages && pages[p] != null :: pages[p][..])
    }

    /** openPager: the file and an empty cache. */
    constructor (file: seq<byte>)
      ensures Valid() && fresh(Repr)
      ensures Image() == PagerImage(file, map[])
    {
      this.file := file;
      pages := new array?<byte>[TableMaxPages](_ => null);
      new;
      Repr := {this, pages};
    }

    /** getPage: page numbers above TableMaxPages fail with ErrFail; a cached page is
        returned as the same buffer; otherwise a zero-filled buffer is cached and, when
        pageNum <= numPages, filled from the file at pageNum * PageSize.
        Page TableMaxPages passes the guard and then indexes past the cache array,
        a run-time panic, so callers must not ask for it. */
    method GetPage(pageNum: uint32) returns (r: Result<array<byte>>)
      requires Valid()
      requires pageNum != TableMaxPages
      modifies Repr
      ensures Valid() && fresh(Repr - old(Repr))
      ensures pageNum > TableMaxPages ==>
                r == Err(ErrFail) && Image() == old(Image()) && Repr == old(Repr)
      ensures pageNum < TableMaxPages ==>
                r.Ok? && r.value == pages[pageNum] && r.value in Repr
                && r.value[..] == PageOf(old(Image()), pageNum)
                && Image() == LoadImage(old(Image()), pageNum)
      ensures pageNum < TableMaxPages && old(pages[pageNum]) != null ==>
                r.Ok? && r.value == old(pages[pageNum]) && Repr == old(Repr) && Image() == old(Image())
    {
      if pageNum > TableMaxPages {
        return Err(ErrFail);
      }
      if pages[pageNum] == null {
        ghost var before := Image();
        var page := new byte[PageSize](_ => 0);
        var fsize := |file| % Uint32Modulus;
        var numPages := fsize / PageSize;
        if fsize % PageSize == 0 {
          numPages := numPages + 1;
        }
        if pageNum <= numPages {
          ReadFile(file, pageNum * PageSize, page);
        }
        assert page[..] == LoadedPage(file, pageNum);
        assert Image() == before;
        Install(pageNum, page);
      }
      r := Ok(pages[pageNum]);
    }

    /** Caching a new buffer as page p. */
    method Install(p: nat, page: array<byte>)
      requires Valid() && p < TableMaxPages && pages[p] == null
      requires page !in Repr && page.Length == PageSize
      modifies this, pages
      ensures Valid() && Repr == old(Repr) + {page} && pages[p] == page
      ensures Image() == PagerImage(old(file), old(Image()).cache[p := page[..]])
    {
      ghost var before := Image();
      pages[p] := page;
      Repr := Repr + {page};
      assert Image().cache == before.cache[p := page[..]];
    }

    /** serializeRow into the cached buffer of page p: only the bytes of that page
        change, and panicked says whether the row ran past the page. */
    method StoreRow(page: array<byte>, ghost p: nat, slot: nat, row: Row) returns (panicked: bool)
      requires Valid() && p < TableMaxPages && pages[p] == page
      modifies page
      ensures Valid() && (panicked <==> slot + RowSize > PageSize)
      ensures Image() == PagerImage(file, old(Image()).cache[p := Stored(old(page[..]), slot, row)])
    {
      ghost var before := Image();
      panicked := SerializeRow(row, page, slot);
      assert forall q :: 0 <= q < TableMaxPages && q != p && pages[q] != null ==> pages[q] != page;
      assert Image().cache == before.cache[p := page[..]];
    }

    /** File.WriteAt(buf, offset): only the file changes. */
    method WriteAt(buf: array<byte>, offset: nat)
      requires Valid()
      modifies this
      ensures Valid() && Repr == old(Repr)
      ensures Image() == PagerImage(Written(old(file), buf[..], offset), old(Image()).cache)
    {
      file := Written(file, buf[..], offset);
    }
  }
}
