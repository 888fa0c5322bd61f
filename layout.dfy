/** Fixed layout of the scratchdb row store: sizes and offsets of the encoded row,
    the page geometry, the little-endian encoding of the 32-bit ID, and the
    arithmetic that maps a row number to its page and byte offset. */
module Layout {

  type byte = b: int | 0 <= b < 256
  type uint32 = x: int | 0 <= x < 0x1_0000_0000

  const Uint32Modulus: nat := 0x1_0000_0000

  // Sizes as Go's unsafe.Sizeof reports them on a 64-bit target: a uint32 is
  // 4 bytes and a string header (pointer + length) is 16 bytes.
  const IDSize: nat := 4
  const UsernameSize: nat := 16
  const EmailSize: nat := 16
  const IDOffset: nat := 0
  const UsernameOffset: nat := 4    // IDOffset + IDSize
  const EmailOffset: nat := 20      // UsernameOffset + UsernameSize
  const RowSize: nat := 36          // IDSize + UsernameSize + EmailSize
  const TableMaxPages: nat := 4096
  const PageSize: nat := 4096
  // Rows per page is derived from the ID size, not from the row size.
  const RowsPerPage: nat := 1024    // PageSize / IDSize
  const TableMaxRows: nat := 4194304 // RowsPerPage * TableMaxPages

  /** The constants are the ones the Go declarations compute; in particular the
      rows of one page take up nine times the page. */
  lemma LayoutConstants()
    ensures UsernameOffset == IDOffset + IDSize && EmailOffset == UsernameOffset + UsernameSize
    ensures RowSize == IDSize + UsernameSize + EmailSize
    ensures RowsPerPage == PageSize / IDSize && TableMaxRows == RowsPerPage * TableMaxPages
    ensures RowsPerPage * RowSize == 9 * PageSize && PageSize / RowSize == 113
  {
  }

  /** The four bytes binary.LittleEndian.PutUint32 stores, least significant first. */
  function LeBytes(v: uint32): (b: seq<byte>)
    ensures |b| == IDSize
  {
    var q1 := v / 256;
    var q2 := q1 / 256;
    var q3 := q2 / 256;
    [v % 256, q1 % 256, q2 % 256, q3]
  }

  /** The value binary.LittleEndian.Uint32 reads from the first four bytes of b. */
  function LeValue(b: seq<byte>): (v: uint32)
    requires |b| >= IDSize
  {
    b[0] as int + 256 * b[1] as int + 65536 * b[2] as int + 16777216 * b[3] as int
  }

  lemma Split256(q: int, r: int)
    requires 0 <= r < 256
    ensures (256 * q + r) / 256 == q && (256 * q + r) % 256 == r
  {
  }

  /** Reading back what PutUint32 stored gives the stored value. */
  lemma LeRoundTrip(v: uint32)
    ensures LeValue(LeBytes(v)) == v
  {
    var q1 := v / 256;
    var q2 := q1 / 256;
    var q3 := q2 / 256;
    assert v == 256 * q1 + v % 256;
    assert q1 == 256 * q2 + q1 % 256;
    assert q2 == 256 * q3 + q2 % 256;
  }

  /** Storing the value read from four bytes reproduces those four bytes, so
      LeBytes and LeValue are inverse bijections between uint32 and 4-byte strings. */
  lemma LeBytesOfValue(b: seq<byte>)
    requires |b| >= IDSize
    ensures LeBytes(LeValue(b)) == b[..IDSize]
  {
    var v := LeValue(b);
    var k2: int := b[2] as int + 256 * b[3] as int;
    var k1: int := b[1] as int + 256 * k2;
    assert v == 256 * k1 + b[0];
    Split256(k1, b[0]);
    assert k1 == 256 * k2 + b[1];
    Split256(k2, b[1]);
    assert k2 == 256 * b[3] as int + b[2];
    Split256(b[3], b[2]);
  }

  /** Where a row lives: the page number and the byte offset inside that page. */
  datatype Slot = Slot(page: nat, offset: nat)

  /** The arithmetic of rowSlot: page rowNum / RowsPerPage, offset (rowNum % RowsPerPage) * RowSize. */
  function SlotOf(rowNum: nat): (s: Slot)
  {
    Slot(rowNum / RowsPerPage, (rowNum % RowsPerPage) * RowSize)
  }

  /** The row number a slot stands for; the inverse of SlotOf. */
  function RowOf(s: Slot): (rowNum: nat)
  {
    s.page * RowsPerPage + s.offset / RowSize
  }

  /** SlotOf is injective: every slot offset is a whole number of rows below
      RowsPerPage * RowSize, and RowOf recovers the row number. */
  lemma SlotOfInverse(rowNum: nat)
    ensures SlotOf(rowNum).offset % RowSize == 0
    ensures SlotOf(rowNum).offset < RowsPerPage * RowSize
    ensures RowOf(SlotOf(rowNum)) == rowNum
  {
    var r := rowNum % RowsPerPage;
    assert r * RowSize / RowSize == r;
  }

  /** Two different rows on the same page occupy disjoint byte ranges. */
  lemma SlotsDisjoint(r1: nat, r2: nat)
    requires r1 != r2 && SlotOf(r1).page == SlotOf(r2).page
    ensures SlotOf(r1).offset + RowSize <= SlotOf(r2).offset
         || SlotOf(r2).offset + RowSize <= SlotOf(r1).offset
  {
    var a, b := r1 % RowsPerPage, r2 % RowsPerPage;
    assert r1 == SlotOf(r1).page * RowsPerPage + a;
    assert r2 == SlotOf(r2).page * RowsPerPage + b;
    assert a != b;
    if a < b {
      assert (a + 1) * RowSize <= b * RowSize;
    } else {
      assert (b + 1) * RowSize <= a * RowSize;
    }
  }

  /** The rows whose slot lies inside an existing page: below TableMaxRows, and
      among the first PageSize / RowSize = 113 rows of their page. */
  predicate SlotFits(rowNum: nat)
  {
    rowNum < TableMaxRows && rowNum % RowsPerPage < PageSize / RowSize
  }

  /** SlotFits holds exactly when the row's page exists in the pager and the
      encoded row lies inside that page, so that rowSlot neither panics nor slices
      past the 4096-byte buffer. Because RowsPerPage is computed from the ID size,
      the other 911 rows of every page do not fit. */
  lemma SlotFitsIff(rowNum: nat)
    ensures SlotFits(rowNum) <==> SlotOf(rowNum).page < TableMaxPages && SlotOf(rowNum).offset + RowSize <= PageSize
  {
    var r := rowNum % RowsPerPage;
    assert SlotOf(rowNum).offset == r * 36;
    if r < 113 {
      assert r * 36 + 36 <= 4096;
    } else {
      assert r * 36 + 36 > 4096;
    }
  }

  /** Rows 0..n-1 all fit exactly when n <= 113: the table can hold 113 rows,
      although TableMaxRows says 4194304. */
  lemma FittingPrefix(n: nat)
    ensures (forall i :: 0 <= i < n ==> SlotFits(i)) <==> n <= PageSize / RowSize
  {
    if n <= PageSize / RowSize {
      forall i | 0 <= i < n ensures SlotFits(i) {
        SlotFitsIff(i);
      }
    } else {
      var bad := PageSize / RowSize;
      SlotFitsIff(bad);
      assert !SlotFits(bad);
    }
  }

  /** The first PageSize / RowSize + 1 rows all land on page 0, and the last of
      them is the first that does not fit. */
  lemma FirstPageSlots(i: nat)
    requires i <= PageSize / RowSize
    ensures SlotOf(i) == Slot(0, RowSize * i)
    ensures SlotFits(i) <==> i < PageSize / RowSize
    ensures SlotFits(i) <==> SlotOf(i).offset + RowSize <= PageSize
  {
    SlotFitsIff(i);
  }

  function Min(a: int, b: int): (m: int) { if a < b then a else b }
  function Max(a: int, b: int): (m: int) { if a < b then b else a }

  /** The len bytes of s from lo on: the Go slice s[lo:lo+len]. */
  function Window(s: seq<byte>, lo: nat, len: nat): (w: seq<byte>)
    requires lo + len <= |s|
    ensures |w| == len && forall k :: 0 <= k < len ==> w[k] == s[lo + k]
  {
    seq(len, k requires 0 <= k < len => s[lo + k])
  }
}
