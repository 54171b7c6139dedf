/** FAT directory rows: long file names are put together from several rows. */
module Fat32 {
  import opened Sequences

  const ROW_SIZE: nat := 32
  const NAME_SIZE: nat := 256
  const CHARS_PER_ROW: nat := 13
  const INODE_TYPE_FILE: nat := 0x10
  const INODE_TYPE_DIR: nat := 0x20

  function Ucs2ToAscii(code: nat): Byte {
    if code < 127 then code else 63
  }

  /** The little-endian 16-bit number at an offset of the row. */
  function Half(row: Bytes, off: nat): nat
    requires off + 1 < |row|
  {
    var low: nat, high: nat := row[off], row[off + 1];
    low + 0x100 * high
  }

  /** Where the characters of a long entry row are. */
  function CharOffset(j: nat): nat {
    if j < 5 then 1 + 2 * j else if j < 11 then 14 + 2 * (j - 5) else 28 + 2 * (j - 11)
  }

  function LfnChars(row: Bytes): (s: Bytes)
    requires |row| == ROW_SIZE
    ensures |s| == CHARS_PER_ROW && forall j | 0 <= j < CHARS_PER_ROW :: s[j] == Ucs2ToAscii(Half(row, CharOffset(j)))
  {
    [Ucs2ToAscii(Half(row, 1)), Ucs2ToAscii(Half(row, 3)), Ucs2ToAscii(Half(row, 5)), Ucs2ToAscii(Half(row, 7)),
      Ucs2ToAscii(Half(row, 9)),
     Ucs2ToAscii(Half(row, 14)), Ucs2ToAscii(Half(row, 16)), Ucs2ToAscii(Half(row, 18)), Ucs2ToAscii(Half(row, 20)),
     Ucs2ToAscii(Half(row, 22)), Ucs2ToAscii(Half(row, 24)), Ucs2ToAscii(Half(row, 28)), Ucs2ToAscii(Half(row, 30))]
  }

  function IndexOf(row: Bytes): nat
    requires |row| == ROW_SIZE
  {
    row[0] % 0x40
  }

  predicate IsFirst(row: Bytes)
    requires |row| == ROW_SIZE
  {
    row[0] / 0x40 % 2 == 1
  }

  predicate IsUnused(row: Bytes)
    requires |row| == ROW_SIZE
  {
    row[0] == 0 || row[0] == 0xE5
  }

  predicate IsLong(row: Bytes)
    requires |row| == ROW_SIZE
  {
    row[11] % 0x10 == 0x0F
  }

  /** state | bit, for the bits of the inode type */
  function WithBit(state: Byte, bit: nat): Byte
    requires bit == INODE_TYPE_FILE || bit == INODE_TYPE_DIR
  {
    if bit == INODE_TYPE_FILE then (if state / 0x10 % 2 == 1 then state else state + 0x10)
    else if state / 0x20 % 2 == 1 then state else state + 0x20
  }

  /** The string is copied over the buffer up to and including its first NUL. */
  function CopiedOver(buffer: Bytes, at: nat, src: Bytes): (r: Bytes)
    requires at + |src| <= |buffer|
    ensures |r| == |buffer|
    decreases |src|
  {
    if src == [] then buffer
    else if src[0] == 0 then buffer[at := 0]
    else CopiedOver(buffer[at := src[0]], at + 1, src[1..])
  }

  lemma {:induction false} CopiedOverAt(buffer: Bytes, at: nat, src: Bytes)
    requires at + |src| <= |buffer|
    decreases |src|
    ensures var r := CopiedOver(buffer, at, src);
      && (forall p | 0 <= p < |buffer| && !(at <= p < at + |src|) :: r[p] == buffer[p])
      && (forall j | 0 <= j < |src| && (forall i | 0 <= i < j :: src[i] != 0) :: r[at + j] == src[j])
  {
    if src != [] && src[0] != 0 {
      CopiedOverAt(buffer[at := src[0]], at + 1, src[1..]);
      var r := CopiedOver(buffer, at, src);
      forall j | 0 <= j < |src| && (forall i | 0 <= i < j :: src[i] != 0)
        ensures r[at + j] == src[j]
      {
        if j > 0 {
          assert forall i | 0 <= i < j - 1 :: src[1..][i] != 0;
          assert r[at + 1 + (j - 1)] == src[1..][j - 1];
        }
      }
    }
  }

  // ---------------------------------------------------------------- what a row does

  /** Bytes from off on, up to the first space, n at most. */
  function UntilSpace(row: Bytes, off: nat, n: nat): (s: Bytes)
    requires off + n <= |row|
    ensures |s| <= n
    decreases n
  {
    if n == 0 || row[off] == 0x20 then [] else [row[off]] + UntilSpace(row, off + 1, n - 1)
  }

  /** The name of a short entry, with a dot before an extension. */
  function ShortName(row: Bytes): (s: Bytes)
    requires |row| == ROW_SIZE
    ensures |s| <= 12
  {
    UntilSpace(row, 0, 8) + (if row[8] != 0x20 then [0x2E] else []) + UntilSpace(row, 8, 3)
  }

  /** The return code: the index of a long row, 0 for a short row, 0xFE for an unused one, 0xFF for an error. */
  function RowResult(row: Bytes, prevIndex: nat): Byte
    requires |row| == ROW_SIZE
  {
    if IsUnused(row) then 0xFE
    else if !IsLong(row) then 0
    else if IndexOf(row) > 18 || IndexOf(row) == 0 || (!IsFirst(row) && IndexOf(row) != prevIndex - 1) then 0xFF
    else IndexOf(row)
  }

  function RowFilename(row: Bytes, prevIndex: nat, filename: Bytes): (r: Bytes)
    requires |row| == ROW_SIZE && |filename| == NAME_SIZE
    ensures |r| == NAME_SIZE
  {
    if IsUnused(row) || RowResult(row, prevIndex) == 0xFF then filename
    else if IsLong(row) then
      var k := IndexOf(row);
      CopiedOver(if IsFirst(row) then filename[k * CHARS_PER_ROW := 0] else filename,
        (k - 1) * CHARS_PER_ROW, LfnChars(row))
    else if prevIndex == 0 then
      var name := ShortName(row) + [0];
      name + filename[|name|..]
    else filename
  }

  function Cluster(row: Bytes): nat
    requires |row| == ROW_SIZE
  {
    Half(row, 26) + 0x1_0000 * Half(row, 20)
  }

  function DataSize(row: Bytes): nat
    requires |row| == ROW_SIZE
  {
    Half(row, 28) + 0x1_0000 * Half(row, 30)
  }

  /** The number with the given bytes, lowest first. */
  ghost function Number(a: nat, b: nat, c: nat, d: nat): nat {
    a + 0x100 * b + 0x1_0000 * c + 0x100_0000 * d
  }

  lemma NumbersOfRow(row: Bytes)
    requires |row| == ROW_SIZE
    ensures Cluster(row) == Number(row[26], row[27], row[20], row[21])
    ensures DataSize(row) == Number(row[28], row[29], row[30], row[31])
  {
  }

  predicate IsShort(row: Bytes)
    requires |row| == ROW_SIZE
  {
    !IsUnused(row) && !IsLong(row)
  }

  class Inode {
    var state: Byte
    var dataSize: nat
    var cluster: nat
    const filename: array<Byte>

    constructor ()
      ensures fresh(filename) && filename.Length == NAME_SIZE && forall i | 0 <= i < NAME_SIZE :: filename[i] == 0
    {
      state, dataSize, cluster := 0, 0, 0;
      filename := new Byte[NAME_SIZE](_ => 0);
    }
  }

  /** strncpy */
  method StrNCpy(dest: array<Byte>, at: nat, src: Bytes)
    requires at + |src| <= dest.Length
    modifies dest
    ensures dest[..] == CopiedOver(old(dest[..]), at, src)
  {
    var i := 0;
    while i < |src|
      invariant i <= |src|
      invariant CopiedOver(old(dest[..]), at, src) == CopiedOver(dest[..], at + i, src[i..])
    {
      ghost var before := dest[..];
      dest[at + i] := src[i];
      assert dest[..] == before[at + i := src[i]];
      if src[i] == 0 {
        return;
      }
      assert src[i..][1..] == src[i + 1..];
      i := i + 1;
    }
    assert src[i..] == [];
  }

  /** parse_directory_entry: whatever the row holds, only the 256 bytes of the name are written. */
  method ParseDirectoryEntry(result: Inode, entryRow: Bytes, prevIndex: nat) returns (r: Byte)
    requires |entryRow| == ROW_SIZE && result.filename.Length == NAME_SIZE
    modifies result, result.filename
    ensures r == RowResult(entryRow, prevIndex)
    ensures entryRow[0] == 0 || entryRow[0] == 0xE5 ==>
      r == 0xFE && result.filename[..] == old(result.filename[..])
    ensures entryRow[0] != 0 && entryRow[0] != 0xE5 && entryRow[11] % 0x10 == 0x0F ==> var index := entryRow[0] % 0x40;
      r == if 0 < index <= 18 && (entryRow[0] / 0x40 % 2 == 1 || index == prevIndex - 1) then index else 0xFF
    ensures entryRow[0] != 0 && entryRow[0] != 0xE5 && entryRow[11] % 0x10 != 0x0F ==>
      && r == 0
      && result.cluster == Number(entryRow[26], entryRow[27], entryRow[20], entryRow[21])
      && result.dataSize == Number(entryRow[28], entryRow[29], entryRow[30], entryRow[31])
    ensures result.filename[..] == RowFilename(entryRow, prevIndex, old(result.filename[..]))
    ensures entryRow[0] != 0 && entryRow[0] != 0xE5 && entryRow[11] % 0x10 != 0x0F ==> var state := old(result.state);
      result.state == if entryRow[11] / 0x10 % 2 == 1 then (if state / 0x20 % 2 == 1 then state else state + 0x20)
        else if state / 0x10 % 2 == 1 then state else state + 0x10
    ensures !IsShort(entryRow) ==> unchanged(result`cluster) && unchanged(result`dataSize) && unchanged(result`state)
  {
    NumbersOfRow(entryRow);
    if IsUnused(entryRow) {
      return 0xFE;
    }
    if IsLong(entryRow) {
      var index := IndexOf(entryRow);
      if index > 18 || index == 0 {
        return 0xFF;
      }
      if IsFirst(entryRow) {
        result.filename[index * CHARS_PER_ROW] := 0;
        assert result.filename[..] == old(result.filename[..])[index * CHARS_PER_ROW := 0];
      } else if index != prevIndex - 1 {
        return 0xFF;
      }
      StrNCpy(result.filename, (index - 1) * CHARS_PER_ROW, LfnChars(entryRow));
      return index;
    }
    if entryRow[11] / 0x10 % 2 == 1 {
      result.state := WithBit(result.state, INODE_TYPE_DIR);
    } else {
      result.state := WithBit(result.state, INODE_TYPE_FILE);
    }
    result.cluster := Cluster(entryRow);
    result.dataSize := DataSize(entryRow);
    if prevIndex == 0 {
      WriteShortName(result.filename, entryRow);
    }
    return 0;
  }

  /** Appends the bytes of the row up to a space to the first i bytes of the name. */
  method AppendUntilSpace(filename: array<Byte>, i: nat, entryRow: Bytes, off: nat, n: nat) returns (end: nat)
    requires off + n <= |entryRow| && i + n <= filename.Length
    modifies filename
    ensures end == i + |UntilSpace(entryRow, off, n)|
    ensures filename[..end] == old(filename[..i]) + UntilSpace(entryRow, off, n)
    ensures forall k | end <= k < filename.Length :: filename[k] == old(filename[k])
  {
    hide UntilSpace;
    end := i;
    var j := 0;
    while j < n && entryRow[off + j] != 0x20
      invariant j <= n && end == i + j
      invariant forall k | end <= k < filename.Length :: filename[k] == old(filename[k])
      invariant filename[..end] + UntilSpace(entryRow, off + j, n - j)
        == old(filename[..i]) + UntilSpace(entryRow, off, n)
    {
      ghost var front := filename[..end];
      UntilSpaceStep(entryRow, off + j, n - j);
      AppendByte(filename, end, entryRow[off + j]);
      assert front + ([entryRow[off + j]] + UntilSpace(entryRow, off + j + 1, n - j - 1))
          == filename[..end + 1] + UntilSpace(entryRow, off + j + 1, n - j - 1);
      end := end + 1;
      j := j + 1;
    }
    UntilSpaceStep(entryRow, off + j, n - j);
    assert filename[..end] + [] == filename[..end];
  }

  lemma UntilSpaceStep(row: Bytes, off: nat, n: nat)
    requires off + n <= |row|
    ensures UntilSpace(row, off, n) ==
      if n == 0 || row[off] == 0x20 then [] else [row[off]] + UntilSpace(row, off + 1, n - 1)
  {
  }

  /** The 8.3 name of a short entry (parse_directory_entry, lines 206 to 222). */
  method WriteShortName(filename: array<Byte>, entryRow: Bytes)
    requires |entryRow| == ROW_SIZE && filename.Length == NAME_SIZE
    modifies filename
    ensures filename[..] == ShortName(entryRow) + [0] + old(filename[..])[|ShortName(entryRow)| + 1..]
  {
    hide UntilSpace;
    var i := AppendUntilSpace(filename, 0, entryRow, 0, 8);
    if entryRow[8] != 0x20 {
      AppendByte(filename, i, 0x2E);
      i := i + 1;
    }
    i := AppendUntilSpace(filename, i, entryRow, 8, 3);
    assert filename[..i] == ShortName(entryRow);
    AppendByte(filename, i, 0);
    assert filename[..] == filename[..i + 1] + filename[i + 1..];
    assert filename[i + 1..] == old(filename[..])[i + 1..];
  }

  method AppendByte(filename: array<Byte>, i: nat, b: Byte)
    requires i < filename.Length
    modifies filename
    ensures filename[..i + 1] == old(filename[..i]) + [b]
    ensures forall k | i < k < filename.Length :: filename[k] == old(filename[k])
  {
    filename[i] := b;
  }

  // ---------------------------------------------------------------- long file names

  function RowsFor(name: seq<nat>): nat {
    (|name| + CHARS_PER_ROW - 1) / CHARS_PER_ROW
  }

  /** The code at a position of the rows: behind the name there is one NUL, then filling. */
  function CodeAt(name: seq<nat>, p: nat): nat {
    if p < |name| then name[p] else if p == |name| then 0 else 0xFFFF
  }

  /** Where the low bytes of the thirteen characters of a long entry row are; the high bytes follow them. */
  ghost function LowBytes(): (s: seq<nat>)
    ensures |s| == 13
  {
    [1, 3, 5, 7, 9, 14, 16, 18, 20, 22, 24, 28, 30]
  }

  /** The long entry row with the given index, whatever its checksum and unused bytes are. */
  ghost predicate IsLongRow(row: Bytes, name: seq<nat>, index: nat) {
    && |row| == 32 && row[11] % 0x10 == 0x0F && 0 < index <= RowsFor(name)
    && row[0] % 0x40 == index && (row[0] / 0x40 % 2 == 1 <==> index == RowsFor(name))
    && forall j | 0 <= j < 13 ::
      Number(row[LowBytes()[j]], row[LowBytes()[j] + 1], 0, 0) == CodeAt(name, (index - 1) * 13 + j)
  }

  lemma LongRowFacts(row: Bytes, name: seq<nat>, index: nat)
    requires LongName(name) && IsLongRow(row, name, index)
    ensures IsLong(row) && !IsUnused(row) && IndexOf(row) == index && (IsFirst(row) <==> index == RowsFor(name))
    ensures forall j | 0 <= j < CHARS_PER_ROW ::
      Half(row, CharOffset(j)) == CodeAt(name, (index - 1) * CHARS_PER_ROW + j)
  {
    forall j | 0 <= j < 13
      ensures CharOffset(j) == LowBytes()[j]
    {
    }
  }

  ghost predicate LongName(name: seq<nat>) {
    1 <= |name| <= 234 && forall c <- name :: 0 < c < 0x1_0000
  }

  /** The rows of a long name, highest index first, down to the given one. */
  ghost predicate AreRows(rows: seq<Bytes>, name: seq<nat>) {
    |rows| == RowsFor(name) && forall i | 0 <= i < |rows| :: IsLongRow(rows[i], name, |rows| - i)
  }

  /** The state after the first n rows. */
  ghost function FilenameAfter(rows: seq<Bytes>, n: nat, filename: Bytes): (r: Bytes)
    requires n <= |rows| && |filename| == NAME_SIZE && forall row <- rows :: |row| == ROW_SIZE
    ensures |r| == NAME_SIZE
  {
    if n == 0 then filename
      else RowFilename(rows[n - 1], ResultAfter(rows, n - 1), FilenameAfter(rows, n - 1, filename))
  }

  ghost function ResultAfter(rows: seq<Bytes>, n: nat): Byte
    requires n <= |rows| && forall row <- rows :: |row| == ROW_SIZE
  {
    if n == 0 then 0 else RowResult(rows[n - 1], ResultAfter(rows, n - 1))
  }

  /** The name is in place from position p on. */
  ghost predicate NamedFrom(filename: Bytes, name: seq<nat>, p: nat)
    requires |filename| == NAME_SIZE && |name| <= 234
  {
    filename[|name|] == 0 && forall q | p <= q < |name| :: filename[q] == if name[q] < 127 then name[q] else 63
  }

  lemma CharsOfRow(row: Bytes, name: seq<nat>, index: nat)
    requires LongName(name) && IsLongRow(row, name, index)
    ensures forall j | 0 <= j < CHARS_PER_ROW ::
      LfnChars(row)[j] == Ucs2ToAscii(CodeAt(name, (index - 1) * CHARS_PER_ROW + j))
    ensures forall j | 0 <= j < CHARS_PER_ROW && (index - 1) * CHARS_PER_ROW + j < |name| :: LfnChars(row)[j] != 0
  {
    LongRowFacts(row, name, index);
    forall j | 0 <= j < CHARS_PER_ROW && (index - 1) * CHARS_PER_ROW + j < |name|
      ensures LfnChars(row)[j] != 0
    {
      assert Half(row, CharOffset(j)) == name[(index - 1) * CHARS_PER_ROW + j];
      assert name[(index - 1) * CHARS_PER_ROW + j] in name;
    }
  }

  /** Thirteen characters of the name are copied in front of the rest. */
  lemma NamePart(start: Bytes, name: seq<nat>, base: nat, chars: Bytes)
    requires |start| == NAME_SIZE && 1 <= |name| <= 234 && |chars| == CHARS_PER_ROW && base < |name|
    requires base + CHARS_PER_ROW <= |start|
    requires forall j | 0 <= j < CHARS_PER_ROW :: chars[j] == Ucs2ToAscii(CodeAt(name, base + j))
    requires forall j | 0 <= j < CHARS_PER_ROW && base + j < |name| :: chars[j] != 0
    requires base + CHARS_PER_ROW <= |name| ==> NamedFrom(start, name, base + CHARS_PER_ROW)
    ensures NamedFrom(CopiedOver(start, base, chars), name, base)
  {
    hide CopiedOver;
    var r := CopiedOver(start, base, chars);
    CopiedOverAt(start, base, chars);
    forall q | base <= q < |name|
      ensures r[q] == if name[q] < 127 then name[q] else 63
    {
      if q < base + CHARS_PER_ROW {
        assert r[base + (q - base)] == chars[q - base];
      }
    }
    if |name| < base + CHARS_PER_ROW {
      assert r[base + (|name| - base)] == chars[|name| - base];
    }
  }

  /** One more row in order puts its thirteen characters in front of the rest. */
  lemma RowInPlace(row: Bytes, name: seq<nat>, index: nat, prev: nat, filename: Bytes)
    requires LongName(name) && IsLongRow(row, name, index) && |filename| == NAME_SIZE
    requires index < RowsFor(name) ==> prev == index + 1 && NamedFrom(filename, name, index * CHARS_PER_ROW)
    ensures RowResult(row, prev) == index
    ensures NamedFrom(RowFilename(row, prev, filename), name, (index - 1) * CHARS_PER_ROW)
  {
    LongRowFacts(row, name, index);
    hide LfnChars, CopiedOver, Half, CharOffset;
    CharsOfRow(row, name, index);
    NamePart(if IsFirst(row) then filename[index * CHARS_PER_ROW := 0] else filename, name,
      (index - 1) * CHARS_PER_ROW, LfnChars(row));
  }

  /** Rows in order build the name from its end. */
  lemma {:induction false} RowsInPlace(rows: seq<Bytes>, n: nat, name: seq<nat>, filename: Bytes)
    requires LongName(name) && AreRows(rows, name) && 0 < n <= |rows| && |filename| == NAME_SIZE
    ensures forall row <- rows :: |row| == ROW_SIZE
    ensures ResultAfter(rows, n) == |rows| - n + 1
    ensures NamedFrom(FilenameAfter(rows, n, filename), name, (|rows| - n) * CHARS_PER_ROW)
  {
    RowSizes(rows, name);
    if n > 1 {
      RowsInPlace(rows, n - 1, name, filename);
    }
    RowInPlace(rows[n - 1], name, |rows| - n + 1, ResultAfter(rows, n - 1), FilenameAfter(rows, n - 1, filename));
  }

  lemma RowSizes(rows: seq<Bytes>, name: seq<nat>)
    requires AreRows(rows, name)
    ensures forall row <- rows :: |row| == ROW_SIZE
  {
    forall row | row in rows
      ensures |row| == ROW_SIZE
    {
      var i :| 0 <= i < |rows| && rows[i] == row;
      assert IsLongRow(rows[i], name, |rows| - i);
    }
  }

  /** Feeding the rows of a long name and then a short entry leaves the name with its NUL in the buffer, whatever was in
      it before; codes the kernel cannot print have become question marks. */
  lemma LongNameRoundTrip(rows: seq<Bytes>, short: Bytes, name: seq<nat>, filename: Bytes)
    requires LongName(name) && AreRows(rows, name) && |filename| == NAME_SIZE
    requires |short| == ROW_SIZE && short[0] != 0 && short[0] != 0xE5 && short[11] % 0x10 != 0x0F
    ensures forall row <- rows :: |row| == ROW_SIZE
    ensures var prev, f := ResultAfter(rows, |rows|), FilenameAfter(rows, |rows|, filename);
      RowResult(short, prev) == 0 && NamedFrom(RowFilename(short, prev, f), name, 0)
    ensures (forall c <- name :: c < 127) ==>
      RowFilename(short, ResultAfter(rows, |rows|), FilenameAfter(rows, |rows|, filename))[..|name| + 1] == name + [0]
  {
    RowSizes(rows, name);
    hide FilenameAfter, ResultAfter, AreRows;
    AtLeastOneRow(rows, name);
    RowsInPlace(rows, |rows|, name, filename);
    var f := FilenameAfter(rows, |rows|, filename);
    ShortKeepsName(short, f);
    if forall c <- name :: c < 127 {
      PlainName(f, name);
    }
  }

  lemma AtLeastOneRow(rows: seq<Bytes>, name: seq<nat>)
    requires LongName(name) && AreRows(rows, name)
    ensures |rows| > 0
  {
  }

  /** After a long entry's last row, index 1, the short entry leaves the name alone. */
  lemma ShortKeepsName(short: Bytes, filename: Bytes)
    requires |short| == ROW_SIZE && IsShort(short) && |filename| == NAME_SIZE
    ensures RowResult(short, 1) == 0 && RowFilename(short, 1, filename) == filename
  {
  }

  lemma PlainName(filename: Bytes, name: seq<nat>)
    requires |filename| == NAME_SIZE && LongName(name) && NamedFrom(filename, name, 0) && forall c <- name :: c < 127
    ensures filename[..|name| + 1] == name + [0]
  {
    forall q | 0 <= q < |name|
      ensures filename[q] == name[q]
    {
      assert name[q] in name;
    }
  }

  /** The directory reader's loop over the rows of one entry. */
  method ReadEntry(result: Inode, rows: seq<Bytes>, short: Bytes, ghost name: seq<nat>) returns (r: Byte)
    requires LongName(name) && AreRows(rows, name)
    requires |short| == ROW_SIZE && short[0] != 0 && short[0] != 0xE5 && short[11] % 0x10 != 0x0F
    requires result.filename.Length == NAME_SIZE
    modifies result, result.filename
    ensures r == 0 && NamedFrom(result.filename[..], name, 0)
    ensures (forall c <- name :: c < 127) ==> result.filename[..|name| + 1] == name + [0]
    ensures result.cluster == Number(short[26], short[27], short[20], short[21])
    ensures result.dataSize == Number(short[28], short[29], short[30], short[31])
    ensures var state := old(result.state);
      result.state == if short[11] / 0x10 % 2 == 1 then (if state / 0x20 % 2 == 1 then state else state + 0x20)
        else if state / 0x10 % 2 == 1 then state else state + 0x10
  {
    NumbersOfRow(short);
    assert IsShort(short);
    hide RowResult, RowFilename, NamedFrom, AreRows, IsShort, Cluster, DataSize, WithBit;
    RowSizes(rows, name);
    ghost var start := result.filename[..];
    r := 0;
    var i := 0;
    while i < |rows|
      invariant result.state == old(result.state)
      invariant i <= |rows| && r == ResultAfter(rows, i) && result.filename[..] == FilenameAfter(rows, i, start)
    {
      r := ParseDirectoryEntry(result, rows[i], r);
      i := i + 1;
    }
    r := ParseDirectoryEntry(result, short, r);
    LongNameRoundTrip(rows, short, name, start);
    assert result.filename[..|name| + 1] == result.filename[..][..|name| + 1];
  }
}
