/**
 Intel HEX files as they are written: what each line of digits says, stated with the
 digits themselves, and the memory that a file of records means. The translator of
 module Hex accepts exactly these files and gives them this meaning.
 */
module HexPrint {
  import opened Bytes
  import opened Hex

  const UPPER: string := "0123456789ABCDEF"
  const LOWER: string := "0123456789abcdef"

  type Body = b: seq<byte> | |b| < 0x100

  /** A record without its checksum; only data and upper addresses have something behind the type. */
  datatype Rec =
    | Data(address: half, bytes: Body)
    | End(count: byte, address: half)
    | Upper(count: byte, address: half, high: half)
    | Other(count: byte, address: half, kind: byte)
  {
    predicate Valid() {
      Other? ==> kind != 0 && kind != 1 && kind != 4
    }
  }

  function Head(count: byte, address: half, kind: byte): seq<byte> {
    [count, address / 0x100, address % 0x100, kind]
  }

  function RecBytes(r: Rec): seq<byte> {
    match r
    case Data(address, bytes) => Head(|bytes|, address, 0) + bytes
    case End(count, address) => Head(count, address, 1)
    case Upper(count, address, high) => Head(count, address, 4) + [high / 0x100, high % 0x100]
    case Other(count, address, kind) => Head(count, address, kind)
  }

  /** The digit of a value, in either case. */
  predicate SpellsDigit(c: char, v: nat)
    requires v < 16
  {
    c == UPPER[v] || c == LOWER[v]
  }

  /** The two digits of a byte. */
  predicate SpellsByte(line: Line, p: nat, b: byte) {
    && p + 2 <= |line|
    && SpellsDigit(line[p], b / 16)
    && SpellsDigit(line[p + 1], b % 16)
  }

  predicate Spells(line: Line, bytes: seq<byte>) {
    forall i :: 0 <= i < |bytes| ==> SpellsByte(line, 1 + 2 * i, bytes[i])
  }

  /** The line is this record with the checksum that makes all its bytes sum to zero. */
  ghost predicate Writes(line: Line, r: Rec) {
    && line != [] && line[0] == ':' && r.Valid()
    && exists checksum: byte :: (Sum(RecBytes(r)) + checksum) % 0x100 == 0 && Spells(line, RecBytes(r) + [checksum])
  }

  // ------------------------------------------------------------------ digits

  lemma DigitIs(c: char, v: nat)
    ensures Digit(c) == Some(v) <==> v < 16 && SpellsDigit(c, v)
  {
    if v < 10 {
      assert UPPER[v] == LOWER[v] == '0' + v as char;
    } else if v < 16 {
      assert UPPER[v] == 'A' + (v - 10) as char && LOWER[v] == 'a' + (v - 10) as char;
    }
  }

  lemma ByteSpelled(line: Line, p: nat, b: byte)
    ensures HexByte(line, p) == Some(b) <==> SpellsByte(line, p, b)
  {
    hide Digit, SpellsDigit;
    if p + 2 <= |line| {
      DigitIs(line[p], b / 16);
      DigitIs(line[p + 1], b % 16);
      if HexByte(line, p) == Some(b) {
        Halves(Digit(line[p]).value, Digit(line[p + 1]).value);
      }
    }
  }

  lemma Halves(high: nat, low: nat)
    requires high < 16 && low < 16
    ensures (16 * high + low) / 16 == high && (16 * high + low) % 16 == low
  {
  }

  /** The bytes of a line are those whose digits it consists of. */
  lemma {:induction false} BytesSpelled(line: Line, bytes: seq<byte>)
    ensures HexBytes(line, |bytes|) == Some(bytes) <==> Spells(line, bytes)
    decreases |bytes|
  {
    if bytes != [] {
      var n := |bytes| - 1;
      var init, last := bytes[..n], bytes[n];
      assert bytes == init + [last];
      BytesSpelled(line, init);
      ByteSpelled(line, 1 + 2 * n, last);
      hide HexByte, SpellsByte;
      if HexBytes(line, n + 1) == Some(bytes) {
        var before := HexBytes(line, n);
        assert before.Some?;
        assert (before.value + [HexByte(line, 1 + 2 * n).value])[..n] == before.value;
      }
      assert Spells(line, bytes) <==> Spells(line, init) && SpellsByte(line, 1 + 2 * n, last);
    }
  }

  // ------------------------------------------------------------------- lines

  /** The offset of an address from another, going up. */
  function From(address: nat, base: nat): nat
    requires address < 0x1_0000_0000 && base < 0x1_0000_0000
  {
    if address >= base then address - base else address + 0x1_0000_0000 - base
  }

  /** The bytes of a record in memory, over what was there. */
  function Over(mem: Memory, base: nat, bytes: Body): Memory
    requires base < 0x1_0000_0000
  {
    map a: nat | a < 0x1_0000_0000 && (a in mem || From(a, base) < |bytes|) ::
      if From(a, base) < |bytes| then bytes[From(a, base)] else mem[a]
  }

  /** The fourth byte of every word of flash is zero. */
  predicate Storable(base: nat, bytes: Body) {
    forall i :: 0 <= i < |bytes| && (base + i) % 4 == 3 ==> bytes[i] == 0
  }

  /** What a record does, or nothing if it cannot be stored. */
  function Effect(r: Rec, s: Progress): Option<Progress> {
    match r
    case Data(address, bytes) =>
      var base: nat := 0x1_0000 * s.high + address;
      if Storable(base, bytes) then Some(s.(mem := Over(s.mem, base, bytes))) else None
    case End(_, _) => Some(s.(ended := true))
    case Upper(_, _, high) => Some(s.(high := high))
    case Other(_, _, _) => Some(s)
  }

  lemma {:induction false} StoreIs(mem: Memory, base: nat, bytes: Body)
    requires base < 0x1_0000_0000
    ensures Store(mem, base, bytes) == if Storable(base, bytes) then Some(Over(mem, base, bytes)) else None
    decreases |bytes|
  {
    if bytes == [] {
      assert Over(mem, base, bytes) == mem;
    } else {
      var n := |bytes| - 1;
      var init, last := bytes[..n], bytes[n];
      var a := (base + n) % 0x1_0000_0000;
      StoreIs(mem, base, init);
      AddressModulo(base, n);
      assert Storable(base, bytes) <==> Storable(base, init) && (a % 4 == 3 ==> last == 0);
      if Storable(base, bytes) { OverOneMore(mem, base, bytes); }
    }
  }

  lemma AddressModulo(base: nat, n: nat)
    requires base < 0x1_0000_0000 && n < 0x100
    ensures (base + n) % 0x1_0000_0000 % 4 == (base + n) % 4 && From((base + n) % 0x1_0000_0000, base) == n
  {
    if base + n < 0x1_0000_0000 {
      assert (base + n) % 0x1_0000_0000 == base + n;
    } else {
      assert (base + n) % 0x1_0000_0000 == base + n - 0x1_0000_0000;
      assert (base + n) % 4 == (base + n - 0x1_0000_0000) % 4;
    }
  }

  lemma OverOneMore(mem: Memory, base: nat, bytes: Body)
    requires base < 0x1_0000_0000 && bytes != []
    ensures var n := |bytes| - 1;
            Over(mem, base, bytes) == Over(mem, base, bytes[..n])[(base + n) % 0x1_0000_0000 := bytes[n]]
  {
    var n := |bytes| - 1;
    var a := (base + n) % 0x1_0000_0000;
    AddressModulo(base, n);
    var over, before := Over(mem, base, bytes), Over(mem, base, bytes[..n])[a := bytes[n]];
    forall x | x < 0x1_0000_0000 ensures x in over <==> x in before {
      if From(x, base) == n { assert x == a; }
    }
    forall x | x in over ensures over[x] == before[x] {
      if From(x, base) == n { assert x == a; }
    }
    assert over.Keys == before.Keys;
  }

  lemma SumMore(bytes: seq<byte>, b: byte)
    ensures Sum(bytes + [b]) == Sum(bytes) + b
  {
    assert (bytes + [b])[..|bytes|] == bytes;
  }

  /** The size that the source gives a record's body is that of the record. */
  lemma RecSize(r: Rec)
    requires r.Valid()
    ensures var bytes := RecBytes(r); |bytes| >= 4 && |bytes| == 4 + BodySize(bytes[0], bytes[3])
  {
  }

  /** A record has the effect that it should have. */
  lemma RecMeans(r: Rec, checksum: byte, s: Progress)
    requires r.Valid()
    ensures var bytes := RecBytes(r) + [checksum];
            && |bytes| >= 4 && |bytes| >= 4 + BodySize(bytes[0], bytes[3])
            && RecordMeaning(bytes, s) == Effect(r, s)
  {
    hide Store, Storable, Over;
    RecSize(r);
    var bytes := RecBytes(r) + [checksum];
    var body := bytes[4..4 + BodySize(bytes[0], bytes[3])];
    match r
    case Data(address, data) =>
      assert body == data;
      assert Be16(address / 0x100, address % 0x100) == address;
      StoreIs(s.mem, 0x1_0000 * s.high + address, data);
    case Upper(_, _, high) =>
      assert body == [high / 0x100, high % 0x100];
      assert Be16(high / 0x100, high % 0x100) == high;
    case _ =>
  }

  /** A line with all its bytes means what they mean, if they sum to zero. */
  lemma LineOfBytes(line: Line, bytes: seq<byte>, s: Progress)
    requires line != [] && line[0] == ':'
    requires |bytes| >= 4 && |bytes| == 5 + BodySize(bytes[0], bytes[3]) && HexBytes(line, |bytes|) == Some(bytes)
    ensures LineMeaning(line, s) == if Sum(bytes) % 0x100 != 0 then None else RecordMeaning(bytes, s)
  {
    HexBytesPrefix(line, 4, |bytes|);
    hide RecordMeaning, HexBytes, Sum, BodySize;
    assert HexBytes(line, 4) == Some(bytes[..4]);
  }

  lemma Checksum(line: Line, r: Rec) returns (checksum: byte)
    requires Writes(line, r)
    ensures line != [] && line[0] == ':' && r.Valid()
    ensures (Sum(RecBytes(r)) + checksum) % 0x100 == 0 && Spells(line, RecBytes(r) + [checksum])
  {
    hide Sum, Spells, RecBytes, Rec.Valid;
    checksum :| (Sum(RecBytes(r)) + checksum) % 0x100 == 0 && Spells(line, RecBytes(r) + [checksum]);
  }

  /** A line that writes a record means that record. */
  lemma LineMeans(line: Line, r: Rec, s: Progress)
    requires Writes(line, r)
    ensures LineMeaning(line, s) == Effect(r, s)
  {
    hide *;
    var checksum := Checksum(line, r);
    RecSize(r);
    BytesSpelled(line, RecBytes(r) + [checksum]);
    SumMore(RecBytes(r), checksum);
    RecMeans(r, checksum, s);
    LineOfBytes(line, RecBytes(r) + [checksum], s);
  }

  /** The record that a line's bytes are. */
  function ReadRec(bytes: seq<byte>): (r: Rec)
    requires |bytes| >= 4 && |bytes| == 4 + BodySize(bytes[0], bytes[3])
    ensures r.Valid() && RecBytes(r) == bytes
  {
    var address := Be16(bytes[1], bytes[2]);
    assert address / 0x100 == bytes[1] && address % 0x100 == bytes[2];
    if bytes[3] == 0 then
      assert bytes == bytes[..4] + bytes[4..];
      Data(address, bytes[4..])
    else if bytes[3] == 1 then End(bytes[0], address)
    else if bytes[3] == 4 then
      var high := Be16(bytes[4], bytes[5]);
      assert high / 0x100 == bytes[4] && high % 0x100 == bytes[5];
      assert bytes == bytes[..4] + [bytes[4], bytes[5]];
      Upper(bytes[0], address, high)
    else Other(bytes[0], address, bytes[3])
  }

  /** The bytes of a line with a meaning: enough of them, summing to zero. */
  lemma BytesOfLine(line: Line, s: Progress) returns (bytes: seq<byte>)
    requires line != [] && line[0] == ':' && LineMeaning(line, s).Some?
    ensures |bytes| >= 4 && |bytes| == 5 + BodySize(bytes[0], bytes[3])
    ensures HexBytes(line, |bytes|) == Some(bytes) && Sum(bytes) % 0x100 == 0
  {
    var head := HexBytes(line, 4).value;
    var size := BodySize(head[0], head[3]);
    HexBytesPrefix(line, 4, 5 + size);
    bytes := HexBytes(line, 5 + size).value;
    hide RecordMeaning, HexBytes, Sum, BodySize;
    assert head == bytes[..4];
  }

  /** A line with a colon that has a meaning writes a record: nothing else is accepted. */
  lemma OnlyRecords(line: Line, s: Progress) returns (r: Rec)
    requires line != [] && line[0] == ':' && LineMeaning(line, s).Some?
    ensures Writes(line, r)
  {
    var all := BytesOfLine(line, s);
    BytesSpelled(line, all);
    hide *;
    var n := |all| - 1;
    var bytes, checksum := all[..n], all[n];
    assert bytes + [checksum] == all;
    r := ReadRec(bytes);
    SumMore(bytes, checksum);
    assert (Sum(RecBytes(r)) + checksum) % 0x100 == 0 && Spells(line, RecBytes(r) + [checksum]);
    Wrote(line, r, checksum);
  }

  lemma Wrote(line: Line, r: Rec, checksum: byte)
    requires line != [] && line[0] == ':' && r.Valid()
    requires (Sum(RecBytes(r)) + checksum) % 0x100 == 0 && Spells(line, RecBytes(r) + [checksum])
    ensures Writes(line, r)
  {
    hide Sum, Spells, RecBytes;
  }

  // -------------------------------------------------------------------- files

  /** Lines of a file: records, and others that do not begin with a colon. */
  datatype Item = Comment | Record(r: Rec)

  ghost predicate IsLine(line: Line, item: Item) {
    match item
    case Comment => line == [] || line[0] != ':'
    case Record(r) => Writes(line, r)
  }

  /** The items up to the end record, one after the other. */
  function FileEffect(items: seq<Item>, s: Progress): Option<Progress> {
    if items == [] || s.ended then Some(s)
    else if items[0].Comment? then FileEffect(items[1..], s)
    else
      match Effect(items[0].r, s)
      case None => None
      case Some(t) => FileEffect(items[1..], t)
  }

  lemma {:induction false} FileMeans(lines: seq<Line>, items: seq<Item>, s: Progress)
    requires |lines| == |items| && forall i :: 0 <= i < |lines| ==> IsLine(lines[i], items[i])
    ensures LinesMeaning(lines, s) == FileEffect(items, s)
    decreases |lines|
  {
    if lines != [] && !s.ended {
      assert IsLine(lines[0], items[0]);
      match items[0]
      case Comment =>
        assert LineMeaning(lines[0], s) == Some(s);
        FileMeans(lines[1..], items[1..], s);
      case Record(r) =>
        LineMeans(lines[0], r, s);
        hide LineMeaning, Effect, IsLine;
        if Effect(r, s).Some? { FileMeans(lines[1..], items[1..], Effect(r, s).value); }
    }
  }

  /** A file of records means the memory that the records write, one after the other. */
  lemma HexFileMeans(lines: seq<Line>, items: seq<Item>)
    requires |lines| == |items| && forall i :: 0 <= i < |lines| ==> IsLine(lines[i], items[i])
    ensures HexMeaning(lines) == match FileEffect(items, Progress(0, map[], false))
                                 case None => None
                                 case Some(s) => Some(s.mem)
  {
    FileMeans(lines, items, Progress(0, map[], false));
  }

  /** The standard end record ends a file. */
  lemma StandardEnd(s: Progress)
    ensures LineMeaning(":00000001FF", s) == Some(s.(ended := true))
  {
    EndIsWritten();
    LineMeans(":00000001FF", End(0, 0), s);
    hide LineMeaning, Writes;
  }

  lemma EndIsWritten()
    ensures Writes(":00000001FF", End(0, 0))
  {
    assert RecBytes(End(0, 0)) == [0, 0, 0, 1];
    assert End(0, 0).Valid();
    SumIsOne();
    EndSpelled();
    hide *;
    Wrote(":00000001FF", End(0, 0), 0xFF);
  }

  lemma SumIsOne()
    ensures Sum([0, 0, 0, 1]) == 1
  {
    SumMore([], 0);
    SumMore([0], 0);
    SumMore([0, 0], 0);
    SumMore([0, 0, 0], 1);
    assert [] + [0 as byte] == [0] && [0] + [0 as byte] == [0, 0] && [0, 0] + [0 as byte] == [0, 0, 0] && [0, 0, 0] + [1 as byte] == [0, 0, 0, 1];
  }

  lemma EndSpelled()
    ensures Spells(":00000001FF", [0, 0, 0, 1] + [0xFF])
  {
    var line: Line := ":00000001FF";
    assert SpellsByte(line, 1, 0) && SpellsByte(line, 3, 0) && SpellsByte(line, 5, 0);
    assert SpellsByte(line, 7, 1) && SpellsByte(line, 9, 0xFF);
    hide SpellsByte, SpellsDigit;
  }
}
