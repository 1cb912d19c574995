/**
 The host side of a firmware image (hex2ioio.cc): Intel HEX text in, image out.

 The first part says what a HEX file means, record by record, as a map from
 byte addresses to bytes, and what image a map stands for. The second part is
 the translator itself: a cursor, a running checksum that is never reset, and
 a map of 256-byte blocks.

 C++ leaves open which operand of `read4(p) << 4 | read4(p)` and of
 `read8(p) << 8 | read8(p)` is evaluated first. The model reads the high part
 first, which is the order that the HEX format needs.
 */
module Hex {
  import opened Bytes
  import opened Flash
  import opened IoioFile

  /** A line as getline delivers it into a 256-character buffer. */
  type Line = s: string | |s| <= 255

  /** Bytes by 32-bit byte address. */
  type Memory = m: map<nat, byte> | forall a :: a in m ==> a < 0x1_0000_0000

  // ------------------------------------------------------- meaning of a file

  function Digit(c: char): (r: Option<nat>)
    ensures r.Some? ==> r.value < 16
  {
    if '0' <= c <= '9' then Some(c as int - '0' as int)
    else if 'a' <= c <= 'f' then Some(c as int + 10 - 'a' as int)
    else if 'A' <= c <= 'F' then Some(c as int + 10 - 'A' as int)
    else None
  }

  /** The byte written in the two characters from p on. */
  function HexByte(line: Line, p: nat): Option<byte> {
    if p + 2 <= |line| && Digit(line[p]).Some? && Digit(line[p + 1]).Some?
    then Some(16 * Digit(line[p]).value + Digit(line[p + 1]).value)
    else None
  }

  /** The first n bytes after the colon. */
  function HexBytes(line: Line, n: nat): (r: Option<seq<byte>>)
    ensures r.Some? ==> |r.value| == n
  {
    if n == 0 then Some([])
    else
      match HexBytes(line, n - 1)
      case None => None
      case Some(bytes) =>
        match HexByte(line, 1 + 2 * (n - 1))
        case None => None
        case Some(b) => Some(bytes + [b])
  }

  lemma {:induction false} HexBytesPrefix(line: Line, m: nat, n: nat)
    requires m <= n
    ensures HexBytes(line, n).Some? ==> HexBytes(line, m).Some? && HexBytes(line, m).value == HexBytes(line, n).value[..m]
  {
    if m < n {
      HexBytesPrefix(line, m, n - 1);
    } else if HexBytes(line, n).Some? {
      assert HexBytes(line, n).value[..n] == HexBytes(line, n).value;
    }
  }

  function Sum(bytes: seq<byte>): (n: nat) {
    if bytes == [] then 0 else Sum(bytes[..|bytes| - 1]) + bytes[|bytes| - 1]
  }

  /** Bytes of a record after its four header bytes and before its checksum. */
  function BodySize(count: byte, kind: byte): nat {
    if kind == 0 then count else if kind == 4 then 2 else 0
  }

  /** Bytes stored one after the other; the fourth byte of each word must be zero. */
  function Store(mem: Memory, address: nat, bytes: seq<byte>): Option<Memory>
    requires address < 0x1_0000_0000
  {
    if bytes == [] then Some(mem)
    else
      var n := |bytes| - 1;
      match Store(mem, address, bytes[..n])
      case None => None
      case Some(m) => StoreOne(m, (address + n) % 0x1_0000_0000, bytes[n])
  }

  function StoreOne(mem: Memory, address: nat, b: byte): Option<Memory>
    requires address < 0x1_0000_0000
  {
    if address % 4 == 3 && b != 0 then None else Some(mem[address := b])
  }

  /** What has been read so far: the upper half of addresses, the bytes, and whether the end record came. */
  datatype Progress = Progress(high: half, mem: Memory, ended: bool)

  /** What a record says: data, the end, the upper half of the addresses to come, or nothing. */
  function RecordMeaning(bytes: seq<byte>, s: Progress): Option<Progress>
    requires |bytes| >= 4 && |bytes| >= 4 + BodySize(bytes[0], bytes[3])
  {
    var body := bytes[4..4 + BodySize(bytes[0], bytes[3])];
    if bytes[3] == 0 then
      match Store(s.mem, 0x1_0000 * s.high + Be16(bytes[1], bytes[2]), body)
      case None => None
      case Some(mem) => Some(s.(mem := mem))
    else if bytes[3] == 1 then Some(s.(ended := true))
    else if bytes[3] == 4 then Some(s.(high := Be16(body[0], body[1])))
    else Some(s)
  }

  /**
   A line without a colon says nothing. A record is well formed when its bytes,
   checksum included, sum to zero modulo 256.
   */
  function LineMeaning(line: Line, s: Progress): Option<Progress> {
    if line == [] || line[0] != ':' then Some(s)
    else
      match HexBytes(line, 4)
      case None => None
      case Some(head) =>
        var size := BodySize(head[0], head[3]);
        HexBytesPrefix(line, 4, 5 + size);
        match HexBytes(line, 5 + size)
        case None => None
        case Some(bytes) => if Sum(bytes) % 0x100 != 0 then None else RecordMeaning(bytes, s)
  }

  /** All lines up to the end record. */
  function LinesMeaning(lines: seq<Line>, s: Progress): Option<Progress> {
    if lines == [] || s.ended then Some(s)
    else
      match LineMeaning(lines[0], s)
      case None => None
      case Some(s') => LinesMeaning(lines[1..], s')
  }

  function HexMeaning(lines: seq<Line>): Option<Memory> {
    match LinesMeaning(lines, Progress(0, map[], false))
    case None => None
    case Some(s) => Some(s.mem)
  }

  // ----------------------------------------------------- image of a memory

  function ByteAt(mem: Memory, address: nat): byte {
    if address in mem then mem[address] else 0xFF
  }

  const ROWS: nat := 0x100_0000

  predicate HasRow(mem: Memory, row: nat) {
    exists a :: a in mem && a / 0x100 == row
  }

  /** The 192 bytes of a row: three of every four bytes of 256. */
  function RowBytes(mem: Memory, row: nat): (r: seq<byte>)
    ensures |r| == 192
  {
    seq(192, k requires 0 <= k < 192 => ByteAt(mem, 0x100 * row + 4 * (k / 3) + k % 3))
  }

  /** The blocks of a memory from one row on, in ascending order. */
  function BlocksFrom(mem: Memory, row: nat): Blocks
    requires row <= ROWS
    decreases ROWS - row
  {
    if row == ROWS then []
    else (if HasRow(mem, row) then [Block(0x80 * row, RowBytes(mem, row))] else []) + BlocksFrom(mem, row + 1)
  }

  function EncodeAll(blocks: Blocks): seq<byte>
  {
    if blocks == [] then []
    else
      var n := |blocks| - 1;
      EncodeAll(blocks[..n]) + Encode(blocks[n])
  }

  lemma {:induction false} BlocksFromProperties(mem: Memory, row: nat)
    requires row <= ROWS
    ensures forall b :: b in BlocksFrom(mem, row) <==>
              exists r :: row <= r < ROWS && HasRow(mem, r) && b == Block(0x80 * r, RowBytes(mem, r))
    decreases ROWS - row
  {
    if row < ROWS {
      BlocksFromProperties(mem, row + 1);
      forall b | b in BlocksFrom(mem, row)
        ensures exists r :: row <= r < ROWS && HasRow(mem, r) && b == Block(0x80 * r, RowBytes(mem, r))
      {
        if b in BlocksFrom(mem, row + 1) {
          var r :| row + 1 <= r < ROWS && HasRow(mem, r) && b == Block(0x80 * r, RowBytes(mem, r));
        } else {
          assert HasRow(mem, row);
        }
      }
    }
  }

  function Image(mem: Memory): seq<byte> {
    HEADER + EncodeAll(BlocksFrom(mem, 0))
  }

  // ---------------------------------------------------------- the translator

  /** The 256 bytes of a row as the translator keeps them, all ones where nothing was written. */
  type Row = s: seq<byte> | |s| == 0x100 witness seq(0x100, _ => 0xFF as byte)

  const BLANK: Row := seq(0x100, _ => 0xFF as byte)

  /** The rows kept under their word addresses are the rows of a memory. */
  ghost predicate Holds(rows: map<nat, Row>, mem: Memory) {
    && (forall row: nat :: 0x80 * row in rows <==> HasRow(mem, row))
    && (forall key :: key in rows ==> key % 0x80 == 0 && key < 0x8000_0000)
    && (forall row: nat, i :: 0x80 * row in rows && 0 <= i < 0x100 ==> rows[0x80 * row][i] == ByteAt(mem, 0x100 * row + i))
  }

  lemma HoldsStored(rows: map<nat, Row>, mem: Memory, address: nat, b: byte)
    requires Holds(rows, mem) && address < 0x1_0000_0000
    ensures var key := 0x80 * (address / 0x100);
            var row := if key in rows then rows[key] else BLANK;
            Holds(rows[key := row[address % 0x100 := b]], mem[address := b])
  {
    var key := 0x80 * (address / 0x100);
    var old_row := if key in rows then rows[key] else BLANK;
    var rows' := rows[key := old_row[address % 0x100 := b]];
    var mem' := mem[address := b];
    forall row: nat ensures 0x80 * row in rows' <==> HasRow(mem', row) {
      assert address in mem';
      if HasRow(mem, row) {
        var a :| a in mem && a / 0x100 == row;
        assert a in mem';
      }
    }
    forall row: nat, i | 0x80 * row in rows' && 0 <= i < 0x100
      ensures rows'[0x80 * row][i] == ByteAt(mem', 0x100 * row + i)
    {
      assert (0x100 * row + i) / 0x100 == row && (0x100 * row + i) % 0x100 == i;
      if row == address / 0x100 && key !in rows {
        assert !HasRow(mem, row);
        assert 0x100 * row + i !in mem;
      }
    }
  }

  lemma ModuloSum(x: nat, y: nat)
    ensures (x % 0x100 + y) % 0x100 == (x + y) % 0x100
  {
    assert x + y == 0x100 * (x / 0x100) + (x % 0x100 + y);
  }

  lemma SumSnoc(bytes: seq<byte>, b: byte)
    ensures Sum(bytes + [b]) == Sum(bytes) + b
  {
    assert (bytes + [b])[..|bytes|] == bytes;
  }

  class Translator {
    var memoryMap: map<nat, Row>
    var addressHigh: half
    var checksum: byte
    var gotEnd: bool

    constructor ()
      ensures memoryMap == map[] && addressHigh == 0 && checksum == 0 && !gotEnd
    {
      memoryMap, addressHigh, checksum, gotEnd := map[], 0, 0, false;
    }

    /** Reads two digits at the cursor, the high one first, and adds their value to the running checksum. */
    method Read8(line: Line, p: nat) returns (b: Option<byte>)
      modifies `checksum
      ensures b == HexByte(line, p)
      ensures b.Some? ==> checksum == (old(checksum) + b.value) % 0x100
    {
      if p + 2 > |line| { return None; }
      var high, low := Digit(line[p]), Digit(line[p + 1]);
      if high.None? || low.None? { return None; }
      b := Some(16 * high.value + low.value);
      checksum := (checksum + b.value) % 0x100;
    }

    /** The first n bytes of the line have been read, and the running checksum is their sum. */
    ghost predicate Read(line: Line, n: nat, bytes: seq<byte>)
      reads `checksum
    {
      HexBytes(line, n) == Some(bytes) && checksum == Sum(bytes) % 0x100
    }

    /** The n-th byte of a line, read after those before it. */
    method ReadNext(line: Line, n: nat, ghost before: seq<byte>) returns (b: Option<byte>)
      requires Read(line, n, before)
      modifies `checksum
      ensures b.None? ==> HexBytes(line, n + 1).None?
      ensures b.Some? ==> Read(line, n + 1, before + [b.value])
    {
      b := Read8(line, 1 + 2 * n);
      if b.Some? {
        SumSnoc(before, b.value);
        ModuloSum(Sum(before), b.value);
      }
    }

    /** The count, the two address bytes and the kind of a record. */
    method ReadHead(line: Line) returns (head: Option<seq<byte>>)
      requires checksum == 0
      modifies `checksum
      ensures head == HexBytes(line, 4)
      ensures head.Some? ==> Read(line, 4, head.value)
    {
      var bytes: seq<byte>, n := [], 0;
      while n < 4
        invariant n <= 4 && Read(line, n, bytes)
      {
        var b := ReadNext(line, n, bytes);
        if b.None? {
          HexBytesPrefix(line, n + 1, 4);
          return None;
        }
        bytes, n := bytes + [b.value], n + 1;
      }
      return Some(bytes);
    }

    /** Stores one byte in the row of its address, which is created blank if it is new. */
    method StoreByte(address: nat, b: byte, ghost mem: Memory)
      requires Holds(memoryMap, mem) && address < 0x1_0000_0000
      modifies `memoryMap
      ensures Holds(memoryMap, mem[address := b])
    {
      HoldsStored(memoryMap, mem, address, b);
      var key := 0x80 * (address / 0x100);
      var row := if key in memoryMap then memoryMap[key] else BLANK;
      memoryMap := memoryMap[key := row[address % 0x100 := b]];
    }

    /** The i-th data byte, whose address is a: read, stored, and checked. */
    method ReadDataByte(line: Line, i: nat, a: nat, ghost bytes: seq<byte>, ghost mem: Memory) returns (b: Option<byte>)
      requires Read(line, 4 + i, bytes) && Holds(memoryMap, mem) && a < 0x1_0000_0000
      modifies `checksum, `memoryMap
      ensures b.None? ==> HexBytes(line, 5 + i).None? || StoreOne(mem, a, HexBytes(line, 5 + i).value[4 + i]).None?
      ensures b.Some? ==> Read(line, 5 + i, bytes + [b.value])
      ensures b.Some? ==> StoreOne(mem, a, b.value).Some? && Holds(memoryMap, StoreOne(mem, a, b.value).value)
    {
      b := ReadNext(line, 4 + i, bytes);
      if b.None? { return; }
      StoreByte(a, b.value, mem);
      if a % 4 == 3 && b.value != 0 { b := None; }
    }

    /** The body of a data record, byte by byte into the map of rows. */
    method ReadData(line: Line, count: nat, address: nat, ghost head: seq<byte>, ghost mem: Memory)
      returns (ok: bool, ghost bytes: seq<byte>)
      requires Read(line, 4, head) && Holds(memoryMap, mem) && address < 0x1_0000_0000
      modifies `checksum, `memoryMap
      ensures ok ==> Read(line, 4 + count, bytes)
      ensures ok ==> Store(mem, address, bytes[4..]).Some? && Holds(memoryMap, Store(mem, address, bytes[4..]).value)
      ensures !ok ==> HexBytes(line, 4 + count).None?
                      || Store(mem, address, HexBytes(line, 4 + count).value[4..]).None?
    {
      bytes := head;
      ghost var stored := mem;
      var a, i: nat := address, 0;
      while i < count
        invariant i <= count && a == (address + i) % 0x1_0000_0000
        invariant Read(line, 4 + i, bytes)
        invariant Store(mem, address, bytes[4..]) == Some(stored) && Holds(memoryMap, stored)
      {
        var b := ReadDataByte(line, i, a, bytes, stored);
        if b.None? {
          DataRefused(line, i, count, address, bytes, mem, stored);
          return false, bytes;
        }
        StoreNext(mem, address, bytes, b.value);
        bytes := bytes + [b.value];
        stored := StoreOne(stored, a, b.value).value;
        WrapNext(address + i);
        a, i := (a + 1) % 0x1_0000_0000, i + 1;
      }
      return true, bytes;
    }

    /** What a record does before its checksum is read; `bytes` are the bytes read so far. */
    method ProcessBody(line: Line, head: seq<byte>, size: nat, ghost s: Progress)
      returns (ok: bool, ghost bytes: seq<byte>)
      requires Read(line, 4, head) && size == BodySize(head[0], head[3])
      requires Holds(memoryMap, s.mem) && addressHigh == s.high && !gotEnd && !s.ended
      modifies this
      ensures ok ==> Read(line, 4 + size, bytes) && bytes[..4] == head && RecordMeaning(bytes, s).Some?
      ensures ok ==> var s' := RecordMeaning(bytes, s).value;
                     Holds(memoryMap, s'.mem) && addressHigh == s'.high && gotEnd == s'.ended
      ensures !ok ==> HexBytes(line, 4 + size).None?
                      || (HexBytes(line, 4 + size).value[..4] == head
                          && RecordMeaning(HexBytes(line, 4 + size).value, s).None?)
    {
      HexBytesPrefix(line, 4, 4 + size);
      ok, bytes := true, head;
      if head[3] == 0 {
        ok, bytes := ReadData(line, size, 0x1_0000 * addressHigh + Be16(head[1], head[2]), head, s.mem);
        if HexBytes(line, 4 + size).Some? { DataMeaning(HexBytes(line, 4 + size).value, s); }
      } else if head[3] == 1 {
        gotEnd := true;
      } else if head[3] == 4 {
        var high := ReadNext(line, 4, head);
        if high.None? { HexBytesPrefix(line, 5, 6); return false, bytes; }
        var low := ReadNext(line, 5, head + [high.value]);
        if low.None? { return false, bytes; }
        addressHigh := Be16(high.value, low.value);
        bytes := head + [high.value] + [low.value];
      }
    }

    /** One line of the file; false is the error exit. */
    method ProcessLine(line: Line, ghost s: Progress) returns (ok: bool)
      requires Holds(memoryMap, s.mem) && addressHigh == s.high && checksum == 0 && !gotEnd && !s.ended
      modifies this
      ensures ok <==> LineMeaning(line, s).Some?
      ensures ok ==>
        var s' := LineMeaning(line, s).value;
        Holds(memoryMap, s'.mem) && addressHigh == s'.high && checksum == 0 && gotEnd == s'.ended
    {
      if line == [] || line[0] != ':' { return true; }
      var head := ReadHead(line);
      if head.None? { return false; }
      var size := BodySize(head.value[0], head.value[3]);
      HexBytesPrefix(line, 4, 5 + size);
      HexBytesPrefix(line, 4 + size, 5 + size);
      if HexBytes(line, 5 + size).Some? { ChecksumLast(HexBytes(line, 5 + size).value, s); }
      ghost var bytes;
      ok, bytes := ProcessBody(line, head.value, size, s);
      if !ok { return false; }
      var last := ReadNext(line, 4 + size, bytes);
      if last.None? { return false; }
      assert (bytes + [last.value])[..4 + size] == bytes;
      return checksum == 0;
    }

    /** The lines of the file up to the end record. */
    method ProcessLines(lines: seq<Line>) returns (ok: bool, ghost mem: Memory)
      requires memoryMap == map[] && addressHigh == 0 && checksum == 0 && !gotEnd
      modifies this
      ensures ok <==> HexMeaning(lines).Some?
      ensures ok ==> mem == HexMeaning(lines).value && Holds(memoryMap, mem)
    {
      ghost var s := Progress(0, map[], false);
      var rest := lines;
      while rest != [] && !gotEnd
        invariant Holds(memoryMap, s.mem) && addressHigh == s.high && checksum == 0 && gotEnd == s.ended
        invariant LinesMeaning(lines, Progress(0, map[], false)) == LinesMeaning(rest, s)
        decreases |rest|
      {
        ok := ProcessLine(rest[0], s);
        if !ok { return false, map[]; }
        s := LineMeaning(rest[0], s).value;
        rest := rest[1..];
      }
      return true, s.mem;
    }

    /** Every byte of a row but the fourth of each word. */
    method Serialize(row: Row) returns (out: seq<byte>)
      ensures |out| == 192 && forall k :: 0 <= k < 192 ==> out[k] == row[4 * (k / 3) + k % 3]
    {
      out := [];
      for i := 0 to 256
        invariant |out| == (3 * i + 3) / 4
        invariant forall k :: 0 <= k < |out| ==> out[k] == row[4 * (k / 3) + k % 3]
      {
        if i % 4 != 3 {
          assert |out| / 3 == i / 4 && |out| % 3 == i % 4;
          out := out + [row[i]];
        }
      }
    }

    static method FirstKey(keys: set<nat>) returns (key: nat)
      requires keys != {}
      ensures key in keys && forall k :: k in keys ==> key <= k
    {
      ghost var least := Least(keys);
      key :| key in keys && forall k :: k in keys ==> key <= k;
    }

    /** Appends the row with the least key. */
    method WriteNext(ghost mem: Memory, keys: set<nat>, image: seq<byte>, ghost row: nat)
      returns (key: nat, image': seq<byte>, ghost row': nat)
      requires Holds(memoryMap, mem) && row <= ROWS && keys != {}
      requires Writing(memoryMap, keys, 0x80 * row, image, BlocksFrom(mem, row), BlocksFrom(mem, 0))
      ensures key in keys && row' <= ROWS
      ensures Writing(memoryMap, keys - {key}, 0x80 * row', image', BlocksFrom(mem, row'), BlocksFrom(mem, 0))
    {
      key := FirstKey(keys);
      var out := Serialize(memoryMap[key]);
      ghost var b, next := NextBlock(memoryMap, mem, row, key);
      assert out == b.row;
      image', row' := image + (ToLe32(key) + out), next;
      WritingNext(memoryMap, keys, 0x80 * row, image, b, 0x80 * next, BlocksFrom(mem, next), BlocksFrom(mem, 0));
    }

    /** The rows in ascending order of their addresses, behind the header. */
    method WriteImage(ghost mem: Memory) returns (image: seq<byte>)
      requires Holds(memoryMap, mem)
      ensures image == Image(mem)
    {
      image := HEADER;
      var keys := memoryMap.Keys;
      ghost var row: nat := 0;
      assert [] + BlocksFrom(mem, 0) == BlocksFrom(mem, 0) && image == HEADER + EncodeAll([]);
      while keys != {}
        invariant row <= ROWS
        invariant Writing(memoryMap, keys, 0x80 * row, image, BlocksFrom(mem, row), BlocksFrom(mem, 0))
        decreases keys
      {
        var key;
        key, image, row := WriteNext(mem, keys, image, row);
        keys := keys - {key};
      }
      SkipRows(mem, row, ROWS);
      ghost var written :| written + [] == BlocksFrom(mem, 0) && image == HEADER + EncodeAll(written);
      assert written + [] == written;
    }

    /** The whole program: false stands for the error exit, with no image written. */
    method Translate(lines: seq<Line>) returns (ok: bool, image: seq<byte>)
      requires memoryMap == map[] && addressHigh == 0 && checksum == 0 && !gotEnd
      modifies this
      ensures ok <==> HexMeaning(lines).Some?
      ensures ok ==> image == Image(HexMeaning(lines).value)
    {
      ghost var mem;
      ok, mem := ProcessLines(lines);
      if !ok { return false, []; }
      image := WriteImage(mem);
    }
  }

  lemma DataMeaning(bytes: seq<byte>, s: Progress)
    requires |bytes| >= 4 && bytes[3] == 0 && |bytes| == 4 + BodySize(bytes[0], bytes[3])
    ensures RecordMeaning(bytes, s) ==
      match Store(s.mem, 0x1_0000 * s.high + Be16(bytes[1], bytes[2]), bytes[4..])
      case None => None
      case Some(mem) => Some(s.(mem := mem))
  {
    assert bytes[4..|bytes|] == bytes[4..];
  }

  /** The checksum byte has no part in what a record says. */
  lemma ChecksumLast(bytes: seq<byte>, s: Progress)
    requires |bytes| >= 5 && |bytes| == 5 + BodySize(bytes[0], bytes[3])
    ensures RecordMeaning(bytes[..|bytes| - 1], s) == RecordMeaning(bytes, s)
  {
    var size := BodySize(bytes[0], bytes[3]);
    assert bytes[..4 + size][4..4 + size] == bytes[4..4 + size];
  }

  lemma WrapNext(x: nat)
    ensures (x % 0x1_0000_0000 + 1) % 0x1_0000_0000 == (x + 1) % 0x1_0000_0000
  {
    var q, r := x / 0x1_0000_0000, x % 0x1_0000_0000;
    if r == 0xFFFF_FFFF {
      assert x + 1 == 0x1_0000_0000 * (q + 1);
    } else {
      assert x + 1 == 0x1_0000_0000 * q + (r + 1);
    }
  }

  lemma StoreNext(mem: Memory, address: nat, bytes: seq<byte>, b: byte)
    requires address < 0x1_0000_0000 && |bytes| >= 4
    ensures Store(mem, address, (bytes + [b])[4..]) ==
      match Store(mem, address, bytes[4..])
      case None => None
      case Some(m) => StoreOne(m, (address + |bytes| - 4) % 0x1_0000_0000, b)
  {
    assert (bytes + [b])[4..] == bytes[4..] + [b];
    assert (bytes[4..] + [b])[..|bytes| - 4] == bytes[4..];
  }

  lemma DataRefused(line: Line, i: nat, count: nat, address: nat, bytes: seq<byte>, mem: Memory, stored: Memory)
    requires i < count && address < 0x1_0000_0000
    requires HexBytes(line, 4 + i) == Some(bytes) && Store(mem, address, bytes[4..]) == Some(stored)
    requires var a := (address + i) % 0x1_0000_0000;
             HexBytes(line, 5 + i).None? || StoreOne(stored, a, HexBytes(line, 5 + i).value[4 + i]).None?
    ensures HexBytes(line, 4 + count).None? || Store(mem, address, HexBytes(line, 4 + count).value[4..]).None?
  {
    HexBytesPrefix(line, 5 + i, 4 + count);
    HexBytesPrefix(line, 4 + i, 5 + i);
    if HexBytes(line, 4 + count).Some? {
      var more := HexBytes(line, 5 + i).value;
      assert more == bytes + [more[4 + i]];
      StoreNext(mem, address, bytes, more[4 + i]);
      StorePrefix(mem, address, HexBytes(line, 4 + count).value[4..], more[4..]);
    }
  }

  lemma {:induction false} StorePrefix(mem: Memory, address: nat, bytes: seq<byte>, prefix: seq<byte>)
    requires address < 0x1_0000_0000 && prefix <= bytes && Store(mem, address, prefix).None?
    ensures Store(mem, address, bytes).None?
    decreases |bytes|
  {
    if |prefix| < |bytes| {
      StorePrefix(mem, address, bytes[..|bytes| - 1], prefix);
    } else {
      assert prefix == bytes;
    }
  }

  lemma {:induction false} Least(keys: set<nat>) returns (least: nat)
    requires keys != {}
    ensures least in keys && forall k :: k in keys ==> least <= k
    decreases keys
  {
    var first :| first in keys;
    var rest := keys - {first};
    least := first;
    if rest != {} {
      var other := Least(rest);
      if other < first { least := other; }
    }
    forall k | k in keys ensures least <= k {
      if k != first { assert k in rest; }
    }
  }

  /** The keys that are still to come. */
  ghost predicate KeysFrom(rows: map<nat, Row>, keys: set<nat>, from: nat) {
    forall k :: k in keys <==> k in rows && k >= from
  }

  /** The image so far holds the blocks before `rest`; `keys` are the rows from address `from` on. */
  ghost predicate Writing(rows: map<nat, Row>, keys: set<nat>, from: nat, image: seq<byte>, rest: Blocks, all: Blocks) {
    && KeysFrom(rows, keys, from)
    && exists written :: written + rest == all && image == HEADER + EncodeAll(written)
  }

  lemma WritingNext(rows: map<nat, Row>, keys: set<nat>, from: nat, image: seq<byte>, b: Block, next: nat,
                    rest: Blocks, all: Blocks)
    requires Writing(rows, keys, from, image, [b] + rest, all)
    requires b.address in keys && forall k :: k in keys ==> b.address <= k
    requires from <= b.address && forall k :: k in rows ==> (k >= next <==> k > b.address)
    ensures Writing(rows, keys - {b.address}, next, image + Encode(b), rest, all)
  {
    var written :| written + ([b] + rest) == all && image == HEADER + EncodeAll(written);
    EncodeNext(written, b, rest);
    assert HEADER + EncodeAll(written) + Encode(b) == HEADER + (EncodeAll(written) + Encode(b));
    assert (written + [b]) + rest == all && image + Encode(b) == HEADER + EncodeAll(written + [b]);
  }

  lemma EncodeNext(written: Blocks, b: Block, rest: Blocks)
    ensures written + ([b] + rest) == (written + [b]) + rest
    ensures EncodeAll(written + [b]) == EncodeAll(written) + Encode(b)
  {
    assert (written + [b])[..|written|] == written;
  }

  /** The least remaining key is the next block. */
  lemma NextBlock(rows: map<nat, Row>, mem: Memory, row: nat, key: nat) returns (b: Block, r: nat)
    requires Holds(rows, mem) && row <= ROWS && key in rows && key >= 0x80 * row
    requires forall k :: k in rows && k >= 0x80 * row ==> key <= k
    ensures row < r <= ROWS && BlocksFrom(mem, row) == [b] + BlocksFrom(mem, r)
    ensures forall k :: k in rows ==> (k >= 0x80 * r <==> k > key)
    ensures b.address == key && forall k :: 0 <= k < 192 ==> b.row[k] == rows[key][4 * (k / 3) + k % 3]
  {
    var q := key / 0x80;
    assert key == 0x80 * q;
    forall p: nat | row <= p < q ensures !HasRow(mem, p) {
      assert 0x80 * p !in rows;
    }
    SkipRows(mem, row, q);
    b, r := Block(key, RowBytes(mem, q)), q + 1;
  }

  /** Rows without a byte give no block. */
  lemma {:induction false} SkipRows(mem: Memory, row: nat, to: nat)
    requires row <= to <= ROWS && forall r: nat :: row <= r < to ==> !HasRow(mem, r)
    ensures BlocksFrom(mem, row) == BlocksFrom(mem, to)
    decreases ROWS - row
  {
    if row < to { SkipRows(mem, row + 1, to); }
  }
}
