/** The fixed-width row encoding: serializeRow writes a row into a slot of a page,
    deserializeRow reads it back, and trimNilBuf strips the NUL padding. */
module RowCodec {
  import opened Layout

  /** A Go string is a sequence of bytes, so Username and Email are byte strings. */
  datatype Row = Row(id: uint32, username: seq<byte>, email: seq<byte>)

  /** Row.Validate: whatever the fields hold, it answers false. */
  function Validate(r: Row): (ok: bool)
    ensures !ok
  {
    if r.email == [] || r.username == [] then false else false
  }

  /** Go's copy(dst, src) into a fixed slot: the first min(|dst|, |src|) bytes come
      from src, and the slot's remaining bytes keep their old values (no zero-padding). */
  function CopyInto(dst: seq<byte>, src: seq<byte>): (r: seq<byte>)
    ensures |r| == |dst|
    ensures forall i :: 0 <= i < |dst| ==> r[i] == if i < |src| then src[i] else dst[i]
  {
    if |src| < |dst| then src + dst[|src|..] else src[..|dst|]
  }

  /** s with data written over it from index at on, one byte at a time, as Go's
      copy and PutUint32 do when data fits. */
  function Overwrite(s: seq<byte>, at: nat, data: seq<byte>): (r: seq<byte>)
    requires at + |data| <= |s|
    ensures |r| == |s|
    decreases |data|
  {
    if data == [] then s else Overwrite(s[at := data[0]], at + 1, data[1..])
  }

  /** Overwrite replaces exactly the |data| bytes from at on and keeps every other byte. */
  lemma {:induction false} OverwriteAt(s: seq<byte>, at: nat, data: seq<byte>, i: nat)
    requires at + |data| <= |s| && i < |s|
    ensures Overwrite(s, at, data)[i] == if at <= i < at + |data| then data[i - at] else s[i]
    decreases |data|
  {
    if data != [] {
      OverwriteAt(s[at := data[0]], at + 1, data[1..], i);
    }
  }

  /** The bytes copy moves from src into a slot of the given width: at most width of them. */
  function Prefix(src: seq<byte>, width: nat): (p: seq<byte>)
    ensures |p| == Min(|src|, width) && p == src[..|p|]
  {
    if |src| <= width then src else src[..width]
  }

  /** The page after serializeRow(row, page, slot): PutUint32 of the ID at the slot,
      then each string copied into its fixed-width field over the bytes already there. */
  function Serialized(page: seq<byte>, slot: nat, row: Row): (r: seq<byte>)
    requires slot + RowSize <= |page|
    ensures |r| == |page|
  {
    var withId := Overwrite(page, slot + IDOffset, LeBytes(row.id));
    var withName := Overwrite(withId, slot + UsernameOffset, Prefix(row.username, UsernameSize));
    Overwrite(withName, slot + EmailOffset, Prefix(row.email, EmailSize))
  }

  /** Byte by byte, serializeRow stores the ID's little-endian bytes, then as much of
      each string as fits its field, and leaves every other byte of the page, including
      the unused tail of each field, as it was. */
  lemma SerializedAt(page: seq<byte>, slot: nat, row: Row, i: nat)
    requires slot + RowSize <= |page| && i < |page|
    ensures Serialized(page, slot, row)[i] ==
      if slot + IDOffset <= i < slot + UsernameOffset then LeBytes(row.id)[i - slot - IDOffset]
      else if slot + UsernameOffset <= i < slot + EmailOffset && i - slot - UsernameOffset < |row.username| then
        row.username[i - slot - UsernameOffset]
      else if slot + EmailOffset <= i < slot + RowSize && i - slot - EmailOffset < |row.email| then
        row.email[i - slot - EmailOffset]
      else page[i]
  {
    var withId := Overwrite(page, slot + IDOffset, LeBytes(row.id));
    var withName := Overwrite(withId, slot + UsernameOffset, Prefix(row.username, UsernameSize));
    OverwriteAt(page, slot + IDOffset, LeBytes(row.id), i);
    OverwriteAt(withId, slot + UsernameOffset, Prefix(row.username, UsernameSize), i);
    OverwriteAt(withName, slot + EmailOffset, Prefix(row.email, EmailSize), i);
  }

  /** binary.LittleEndian.PutUint32(buf[at:], v). */
  method PutUint32(buf: array<byte>, at: nat, v: uint32)
    requires at + IDSize <= buf.Length
    modifies buf
    ensures buf[..] == Overwrite(old(buf[..]), at, LeBytes(v))
  {
    var b := LeBytes(v);
    buf[at] := b[0];
    buf[at + 1] := b[1];
    buf[at + 2] := b[2];
    buf[at + 3] := b[3];
    forall i | 0 <= i < buf.Length ensures buf[i] == Overwrite(old(buf[..]), at, b)[i] {
      OverwriteAt(old(buf[..]), at, b, i);
    }
  }

  /** copy(buf[at:at+width], src). */
  method CopyToSlot(buf: array<byte>, at: nat, width: nat, src: seq<byte>)
    requires at + width <= buf.Length
    modifies buf
    ensures buf[..] == Overwrite(old(buf[..]), at, Prefix(src, width))
  {
    var n := if |src| < width then |src| else width;
    forall k | 0 <= k < n {
      buf[at + k] := src[k];
    }
    forall i | 0 <= i < buf.Length ensures buf[i] == Overwrite(old(buf[..]), at, Prefix(src, width))[i] {
      OverwriteAt(old(buf[..]), at, Prefix(src, width), i);
    }
  }

  /** What serializeRow leaves in a page when the slot may run past its end: each of
      the three writes is bounds-checked before it starts, the first one that does not
      fit panics, and the writes before it stay. When the whole row fits, this is
      Serialized. */
  function Stored(page: seq<byte>, slot: nat, row: Row): (r: seq<byte>)
    ensures |r| == |page|
  {
    if slot + RowSize <= |page| then Serialized(page, slot, row)
    else if slot + EmailOffset <= |page| then
      Overwrite(Overwrite(page, slot + IDOffset, LeBytes(row.id)), slot + UsernameOffset, Prefix(row.username, UsernameSize))
    else if slot + UsernameOffset <= |page| then Overwrite(page, slot + IDOffset, LeBytes(row.id))
    else page
  }

  /** Even when it is cut short, serializeRow changes no byte outside the row's slot,
      and when no field fits it changes nothing. */
  lemma StoredStaysInSlot(page: seq<byte>, slot: nat, row: Row, i: nat)
    requires i < |page| && (i < slot || slot + RowSize <= i)
    ensures Stored(page, slot, row)[i] == page[i]
    ensures slot + IDSize > |page| ==> Stored(page, slot, row) == page
  {
    if slot + RowSize <= |page| {
      SerializedAt(page, slot, row, i);
    } else if slot + EmailOffset <= |page| {
      var withId := Overwrite(page, slot + IDOffset, LeBytes(row.id));
      OverwriteAt(page, slot + IDOffset, LeBytes(row.id), i);
      OverwriteAt(withId, slot + UsernameOffset, Prefix(row.username, UsernameSize), i);
    } else if slot + UsernameOffset <= |page| {
      OverwriteAt(page, slot + IDOffset, LeBytes(row.id), i);
    }
  }

  /** serializeRow, which writes the row into page[slot .. slot + RowSize] in place;
      panicked reports the out-of-range slice or PutUint32 bounds check that stops
      it when the slot runs past the page. */
  method SerializeRow(row: Row, page: array<byte>, slot: nat) returns (panicked: bool)
    modifies page
    ensures panicked <==> slot + RowSize > page.Length
    ensures page[..] == Stored(old(page[..]), slot, row)
  {
    if slot + UsernameOffset > page.Length {
      return true;
    }
    PutUint32(page, slot + IDOffset, row.id);
    if slot + EmailOffset > page.Length {
      return true;
    }
    CopyToSlot(page, slot + UsernameOffset, UsernameSize, row.username);
    if slot + RowSize > page.Length {
      return true;
    }
    CopyToSlot(page, slot + EmailOffset, EmailSize, row.email);
    return false;
  }

  /** Strip every leading byte equal to c. */
  function TrimLeft(buf: seq<byte>, c: byte): (r: seq<byte>)
    ensures |r| <= |buf|
  {
    if buf != [] && buf[0] == c then TrimLeft(buf[1..], c) else buf
  }

  /** Strip every trailing byte equal to c. */
  function TrimRight(buf: seq<byte>, c: byte): (r: seq<byte>)
    ensures |r| <= |buf|
  {
    if buf != [] && buf[|buf| - 1] == c then TrimRight(buf[..|buf| - 1], c) else buf
  }

  /** No c at either end. */
  predicate Trimmed(s: seq<byte>, c: byte)
  {
    s == [] || (s[0] != c && s[|s| - 1] != c)
  }

  /** bytes.Trim(buf, string(c)) / strings.Trim for a single cut byte: strips c from both ends. */
  function Trim(buf: seq<byte>, c: byte): (r: seq<byte>)
  {
    TrimRight(TrimLeft(buf, c), c)
  }

  /** TrimLeft removes a run of c from the front and stops at the first other byte. */
  lemma {:induction false} TrimLeftShape(buf: seq<byte>, c: byte)
    ensures var r := TrimLeft(buf, c);
      |r| <= |buf| && r == buf[|buf| - |r|..]
      && (forall k :: 0 <= k < |buf| - |r| ==> buf[k] == c)
      && (r != [] ==> r[0] != c)
  {
    if buf != [] && buf[0] == c {
      TrimLeftShape(buf[1..], c);
      var r := TrimLeft(buf[1..], c);
      assert buf[1..][|buf| - 1 - |r|..] == buf[|buf| - |r|..];
      forall k | 0 <= k < |buf| - |r| ensures buf[k] == c {
        if k > 0 {
          assert buf[k] == buf[1..][k - 1];
        }
      }
    }
  }

  /** TrimRight removes a run of c from the back and stops at the last other byte. */
  lemma {:induction false} TrimRightShape(buf: seq<byte>, c: byte)
    ensures var r := TrimRight(buf, c);
      |r| <= |buf| && r == buf[..|r|]
      && (forall k :: |r| <= k < |buf| ==> buf[k] == c)
      && (r != [] ==> r[|r| - 1] != c)
  {
    if buf != [] && buf[|buf| - 1] == c {
      TrimRightShape(buf[..|buf| - 1], c);
      var r := TrimRight(buf[..|buf| - 1], c);
      assert buf[..|buf| - 1][..|r|] == buf[..|r|];
      forall k | |r| <= k < |buf| ensures buf[k] == c {
        if k < |buf| - 1 {
          assert buf[k] == buf[..|buf| - 1][k];
        }
      }
    }
  }

  function Repeat(c: byte, n: nat): (s: seq<byte>)
    ensures |s| == n && forall i :: 0 <= i < n ==> s[i] == c
  {
    seq(n, _ => c)
  }

  lemma {:induction false} TrimLeftPadded(a: nat, s: seq<byte>, c: byte)
    requires s == [] || s[0] != c
    ensures TrimLeft(Repeat(c, a) + s, c) == s
  {
    if a > 0 {
      assert (Repeat(c, a) + s)[1..] == Repeat(c, a - 1) + s;
      TrimLeftPadded(a - 1, s, c);
    } else {
      assert Repeat(c, a) + s == s;
    }
  }

  lemma {:induction false} TrimRightPadded(s: seq<byte>, b: nat, c: byte)
    requires s == [] || s[|s| - 1] != c
    ensures TrimRight(s + Repeat(c, b), c) == s
  {
    if b > 0 {
      assert (s + Repeat(c, b))[..|s| + b - 1] == s + Repeat(c, b - 1);
      TrimRightPadded(s, b - 1, c);
    } else {
      assert s + Repeat(c, b) == s;
    }
  }

  /** Trim removes exactly the padding: a value with no c at its ends comes back
      unchanged from any amount of c on either side. Every buffer has this shape,
      so the lemma pins Trim down completely. */
  lemma TrimPadded(a: nat, s: seq<byte>, b: nat, c: byte)
    requires Trimmed(s, c)
    ensures Trim(Repeat(c, a) + s + Repeat(c, b), c) == s
  {
    var t := s + Repeat(c, b);
    assert Repeat(c, a) + s + Repeat(c, b) == Repeat(c, a) + t;
    if s == [] {
      assert t == Repeat(c, b);
      TrimLeftPadded(a + b, [], c);
      assert Repeat(c, a) + t == Repeat(c, a + b) + [];
    } else {
      TrimLeftPadded(a, t, c);
    }
    TrimRightPadded(s, b, c);
  }

  /** Every buffer is its trimmed value with runs of c on either side, and the
      trimmed value has no c at its ends; with TrimPadded this characterises Trim. */
  lemma TrimShape(buf: seq<byte>, c: byte)
    ensures var r := Trim(buf, c); var a := |buf| - |TrimLeft(buf, c)|;
      |r| <= |buf| - a && Trimmed(r, c)
      && buf == Repeat(c, a) + r + Repeat(c, |buf| - a - |r|)
  {
    var l := TrimLeft(buf, c);
    var r := Trim(buf, c);
    LeftPadding(buf, c);
    RightPadding(l, c);
    assert Trimmed(r, c) by {
      if r != [] {
        assert r[0] == l[0];
      }
    }
    Glue(buf, l, r, Repeat(c, |buf| - |l|), Repeat(c, |l| - |r|));
  }

  /** The bytes TrimLeft removes are a run of c. */
  lemma LeftPadding(buf: seq<byte>, c: byte)
    ensures var l := TrimLeft(buf, c);
      buf == Repeat(c, |buf| - |l|) + l && (l != [] ==> l[0] != c)
  {
    var l := TrimLeft(buf, c);
    var a := |buf| - |l|;
    TrimLeftShape(buf, c);
    assert buf == buf[..a] + l;
    assert buf[..a] == Repeat(c, a);
  }

  /** The bytes TrimRight removes are a run of c. */
  lemma RightPadding(l: seq<byte>, c: byte)
    ensures var r := TrimRight(l, c);
      l == r + Repeat(c, |l| - |r|) && (r != [] ==> r[|r| - 1] != c)
  {
    var r := TrimRight(l, c);
    TrimRightShape(l, c);
    assert l == r + l[|r|..];
    assert l[|r|..] == Repeat(c, |l| - |r|);
  }

  lemma Glue(s: seq<byte>, l: seq<byte>, r: seq<byte>, x: seq<byte>, y: seq<byte>)
    requires s == x + l && l == r + y
    ensures s == x + r + y
  {
  }

  /** deserializeRow: the ID in little-endian order at slot, then each string slot
      with its NUL bytes trimmed from both ends. */
  function DeserializeRow(page: seq<byte>, slot: nat): (row: Row)
    requires slot + RowSize <= |page|
  {
    Row(LeValue(Window(page, slot + IDOffset, IDSize)),
        Trim(Window(page, slot + UsernameOffset, UsernameSize), 0),
        Trim(Window(page, slot + EmailOffset, EmailSize), 0))
  }

  /** The decoded strings fit their slots and carry no NUL at either end. */
  lemma DeserializedFields(page: seq<byte>, slot: nat)
    requires slot + RowSize <= |page|
    ensures var row := DeserializeRow(page, slot);
      |row.username| <= UsernameSize && Trimmed(row.username, 0)
      && |row.email| <= EmailSize && Trimmed(row.email, 0)
  {
    TrimShape(Window(page, slot + UsernameOffset, UsernameSize), 0);
    TrimShape(Window(page, slot + EmailOffset, EmailSize), 0);
  }

  /** deserializeRow at slot decodes the RowSize bytes of the slot as if they were a page of their own. */
  lemma DeserializeWindow(page: seq<byte>, slot: nat)
    requires slot + RowSize <= |page|
    ensures DeserializeRow(page, slot) == DeserializeRow(Window(page, slot, RowSize), 0)
  {
    var w := Window(page, slot, RowSize);
    assert Window(w, IDOffset, IDSize) == Window(page, slot + IDOffset, IDSize);
    assert Window(w, UsernameOffset, UsernameSize) == Window(page, slot + UsernameOffset, UsernameSize);
    assert Window(w, EmailOffset, EmailSize) == Window(page, slot + EmailOffset, EmailSize);
  }

  /** deserializeRow looks only at the RowSize bytes of its slot. */
  lemma DeserializeLocal(p1: seq<byte>, p2: seq<byte>, slot: nat)
    requires slot + RowSize <= |p1| && slot + RowSize <= |p2|
    requires Window(p1, slot, RowSize) == Window(p2, slot, RowSize)
    ensures DeserializeRow(p1, slot) == DeserializeRow(p2, slot)
  {
    DeserializeWindow(p1, slot);
    DeserializeWindow(p2, slot);
  }

  /** A row the codec can carry: strings no longer than their slots and free of NUL bytes. */
  predicate WellFormed(row: Row)
  {
    |row.username| <= UsernameSize && (forall i :: 0 <= i < |row.username| ==> row.username[i] != 0)
    && |row.email| <= EmailSize && (forall i :: 0 <= i < |row.email| ==> row.email[i] != 0)
  }

  predicate AllZero(s: seq<byte>)
  {
    forall k :: 0 <= k < |s| ==> s[k] == 0
  }

  /** Every byte of the slot is zero. */
  predicate SlotIsZero(page: seq<byte>, slot: nat)
    requires slot + RowSize <= |page|
  {
    AllZero(Window(page, slot, RowSize))
  }

  /** The three fields of a serialized slot, as byte strings: the ID's encoding, and
      each string copied over the field's previous bytes. */
  lemma SerializedFields(page: seq<byte>, slot: nat, row: Row)
    requires slot + RowSize <= |page|
    ensures var r := Serialized(page, slot, row);
      Window(r, slot + IDOffset, IDSize) == LeBytes(row.id)
      && Window(r, slot + UsernameOffset, UsernameSize)
         == CopyInto(Window(page, slot + UsernameOffset, UsernameSize), row.username)
      && Window(r, slot + EmailOffset, EmailSize)
         == CopyInto(Window(page, slot + EmailOffset, EmailSize), row.email)
  {
    var r := Serialized(page, slot, row);
    var u := CopyInto(Window(page, slot + UsernameOffset, UsernameSize), row.username);
    var e := CopyInto(Window(page, slot + EmailOffset, EmailSize), row.email);
    forall k | 0 <= k < IDSize ensures Window(r, slot + IDOffset, IDSize)[k] == LeBytes(row.id)[k] {
      SerializedAt(page, slot, row, slot + IDOffset + k);
    }
    forall k | 0 <= k < UsernameSize ensures Window(r, slot + UsernameOffset, UsernameSize)[k] == u[k] {
      SerializedAt(page, slot, row, slot + UsernameOffset + k);
    }
    forall k | 0 <= k < EmailSize ensures Window(r, slot + EmailOffset, EmailSize)[k] == e[k] {
      SerializedAt(page, slot, row, slot + EmailOffset + k);
    }
  }

  /** A NUL-free string no longer than an all-zero slot is recovered by trimming. */
  lemma CopyIntoZerosTrim(dst: seq<byte>, s: seq<byte>)
    requires AllZero(dst)
    requires |s| <= |dst| && forall i :: 0 <= i < |s| ==> s[i] != 0
    ensures Trim(CopyInto(dst, s), 0) == s
  {
    assert CopyInto(dst, s) == Repeat(0, 0) + s + Repeat(0, |dst| - |s|);
    TrimPadded(0, s, |dst| - |s|, 0);
  }

  /** The ID always comes back, whatever the slot held before. */
  lemma IdRoundTrip(page: seq<byte>, slot: nat, row: Row)
    requires slot + RowSize <= |page|
    ensures DeserializeRow(Serialized(page, slot, row), slot).id == row.id
  {
    SerializedFields(page, slot, row);
    LeRoundTrip(row.id);
  }

  /** Codec round trip: a well-formed row serialized into an all-zero slot
      deserializes to the same row. */
  lemma RoundTrip(page: seq<byte>, slot: nat, row: Row)
    requires slot + RowSize <= |page|
    requires SlotIsZero(page, slot)
    requires WellFormed(row)
    ensures DeserializeRow(Serialized(page, slot, row), slot) == row
  {
    SerializedFields(page, slot, row);
    IdRoundTrip(page, slot, row);
    ZeroPart(page, slot, UsernameOffset, UsernameSize);
    CopyIntoZerosTrim(Window(page, slot + UsernameOffset, UsernameSize), row.username);
    ZeroPart(page, slot, EmailOffset, EmailSize);
    CopyIntoZerosTrim(Window(page, slot + EmailOffset, EmailSize), row.email);
  }

  lemma ZeroPart(page: seq<byte>, slot: nat, lo: nat, len: nat)
    requires lo + len <= RowSize && slot + RowSize <= |page|
    requires SlotIsZero(page, slot)
    ensures AllZero(Window(page, slot + lo, len))
  {
    var part := Window(page, slot + lo, len);
    var slotBytes := Window(page, slot, RowSize);
    forall k | 0 <= k < len ensures part[k] == 0 {
      assert part[k] == slotBytes[lo + k];
    }
  }

  /** copy does not zero-pad: writing the 2-byte username "ab" over a slot whose
      bytes are all 'x' decodes to "ab" followed by fourteen 'x' bytes. */
  lemma StaleBytesSurvive()
    ensures var page := Repeat(0x78, RowSize);
            DeserializeRow(Serialized(page, 0, Row(7, [0x61, 0x62], [])), 0).username
              == [0x61, 0x62] + Repeat(0x78, 14)
  {
    var page := Repeat(0x78, RowSize);
    var r := Serialized(page, 0, Row(7, [0x61, 0x62], []));
    var u := Window(r, UsernameOffset, UsernameSize);
    SerializedFields(page, 0, Row(7, [0x61, 0x62], []));
    assert Window(page, UsernameOffset, UsernameSize)[2..] == Repeat(0x78, 14);
    assert u == [0x61, 0x62] + Repeat(0x78, 14);
    assert TrimLeft(u, 0) == u;
    assert TrimRight(u, 0) == u;
  }
}
