/**
 NOR program flash (flash.c, bootloader_defs.h).

 A word holds 24 bits and occupies two addresses. An erase sets a page of 512
 words to all ones; programming a word can only clear bits, so it leaves the
 AND of what was there and what is written.

 `live` is the number of operations that still take effect. Once it is zero
 every operation fails and changes nothing. This one counter stands both for a
 flash that starts failing and for a power cut between two operations.
 */
module Flash {
  import opened Bytes

  datatype Word = Word(lb: byte, hb: byte, ub: byte)

  const ERASED := Word(0xFF, 0xFF, 0xFF)

  /** End of program memory on the two supported chips (board.h). */
  type ProgramEnd = x: nat | x == 0x2A800 || x == 0x15400 witness 0x2A800

  const APP_PROGSPACE_END: ProgramEnd
  const PAGE_SIZE := 0x400
  const MIN_APP_ADDRESS := 0x5000
  const MAX_APP_ADDRESS: nat := APP_PROGSPACE_END - PAGE_SIZE
  const CONFIG_PAGE: nat := MAX_APP_ADDRESS
  const FINGERPRINT_ADDRESS: nat := CONFIG_PAGE
  const OSCTUN_ADDRESS: nat := FINGERPRINT_ADDRESS + 16

  function AndWord(a: Word, b: Word): Word {
    Word(And(a.lb, b.lb), And(a.hb, b.hb), And(a.ub, b.ub))
  }

  lemma AndWordErased(w: Word)
    ensures AndWord(ERASED, w) == w && AndWord(w, ERASED) == w
  {
    AndFF(w.lb); AndFF(w.hb); AndFF(w.ub);
    AndComm(w.lb, 0xFF); AndComm(w.hb, 0xFF); AndComm(w.ub, 0xFF);
  }

  /** One operation that took effect: a page by number, or words from a word index on. */
  datatype Op = Erase(pageNumber: nat) | Program(first: nat, values: seq<Word>)

  datatype State = State(mem: seq<Word>, live: nat, log: seq<Op>) {
    predicate Valid() {
      2 * |mem| == APP_PROGSPACE_END
    }

    /** The word at an even address. */
    function At(address: nat): Word
      requires Valid() && address < APP_PROGSPACE_END
    {
      mem[address / 2]
    }
  }

  function PageNumber(address: nat): nat {
    address / PAGE_SIZE
  }

  /** First address of the page an address lies in. */
  function PageOf(address: nat): nat {
    PAGE_SIZE * PageNumber(address)
  }

  /** A page holds 512 words. */
  function ErasedPage(mem: seq<Word>, pageNumber: nat): (r: seq<Word>)
    ensures |r| == |mem|
  {
    seq(|mem|, i requires 0 <= i < |mem| => if i / 512 == pageNumber then ERASED else mem[i])
  }

  /** `values` programmed from word index `first` on. */
  function Programmed(mem: seq<Word>, first: nat, values: seq<Word>): (r: seq<Word>)
    ensures |r| == |mem|
  {
    seq(|mem|, i requires 0 <= i < |mem| =>
      if first <= i < first + |values| then AndWord(mem[i], values[i - first]) else mem[i])
  }

  function ErasePage(s: State, address: nat): (State, bool) {
    if s.live == 0 then (s, false)
    else (State(ErasedPage(s.mem, PageNumber(address)), s.live - 1, s.log + [Erase(PageNumber(address))]), true)
  }

  function ProgramWords(s: State, address: nat, values: seq<Word>): (State, bool) {
    if s.live == 0 then (s, false)
    else (State(Programmed(s.mem, address / 2, values), s.live - 1, s.log + [Program(address / 2, values)]), true)
  }

  /** The 64 words of a 192-byte row, three little-endian bytes each. */
  function RowWords(row: seq<byte>): (r: seq<Word>)
    requires |row| == 192
    ensures |r| == 64
  {
    seq(64, i requires 0 <= i < 64 => Word(row[3 * i], row[3 * i + 1], row[3 * i + 2]))
  }

  /** Inside one row the 16-bit address step never wraps before the last word. */
  lemma RowStep(address: nat, k: nat)
    requires address % 0x80 == 0 && k < 64
    ensures address % 0x1_0000 + 2 * k < 0x1_0000
    ensures (address % 0x1_0000 + 2 * k) % 0x80 / 2 == k
  {
    var rows := address % 0x1_0000 / 0x80;
    assert address % 0x1_0000 == 0x80 * rows;
  }

  class FlashDevice {
    const mem: array<Word>
    var live: nat
    ghost var log: seq<Op>

    ghost predicate Valid()
      reads this
    {
      2 * mem.Length == APP_PROGSPACE_END
    }

    ghost function Abs(): State
      reads this, mem
    {
      State(mem[..], live, log)
    }

    /** The next `operations` operations take effect; the contents are those of `contents`. */
    constructor (contents: seq<Word>, operations: nat)
      requires 2 * |contents| == APP_PROGSPACE_END
      ensures Valid() && fresh(mem)
      ensures Abs() == State(contents, operations, [])
    {
      mem := new Word[|contents|](i requires 0 <= i < |contents| => contents[i]);
      live := operations;
      log := [];
      new;
      assert mem[..] == contents;
    }

    method FlashErasePage(address: nat) returns (ok: bool)
      requires Valid() && address % PAGE_SIZE == 0
      modifies this, mem
      ensures Valid() && (Abs(), ok) == ErasePage(old(Abs()), address)
    {
      if live == 0 { return false; }
      forall i | 0 <= i < mem.Length && i / 512 == PageNumber(address) {
        mem[i] := ERASED;
      }
      live := live - 1;
      log := log + [Erase(PageNumber(address))];
      assert mem[..] == ErasedPage(old(mem[..]), PageNumber(address));
      return true;
    }

    method FlashWriteWord(address: nat, value: Word) returns (ok: bool)
      requires Valid() && address % 2 == 0 && address < APP_PROGSPACE_END
      modifies this, mem
      ensures Valid() && (Abs(), ok) == ProgramWords(old(Abs()), address, [value])
    {
      if live == 0 { return false; }
      mem[address / 2] := AndWord(mem[address / 2], value);
      live := live - 1;
      log := log + [Program(address / 2, [value])];
      assert mem[..] == Programmed(old(mem[..]), address / 2, [value]);
      return true;
    }

    /**
     Loads the 64 row latches one word at a time and then programs the row. The
     loop steps only the low 16 bits of the address; because a row is aligned
     to 128 addresses that never leaves the row.
     */
    method FlashWriteBlock(address: nat, block: seq<byte>) returns (ok: bool)
      requires Valid() && address % 0x80 == 0 && address + 0x80 <= APP_PROGSPACE_END
      requires |block| == 192
      modifies this, mem
      ensures Valid() && (Abs(), ok) == ProgramWords(old(Abs()), address, RowWords(block))
    {
      var low := address % 0x1_0000;
      var latches := new Word[64](_ => ERASED);
      var i := 0;
      ghost var k := 0;
      while i < 192
        invariant i == 3 * k && 0 <= k <= 64
        invariant k < 64 ==> low == address % 0x1_0000 + 2 * k
        invariant forall j :: 0 <= j < k ==> latches[j] == RowWords(block)[j]
        invariant Abs() == old(Abs())
      {
        RowStep(address, k);
        latches[low % 0x80 / 2] := Word(block[i], block[i + 1], block[i + 2]);
        i, k := i + 3, k + 1;
        low := (low + 2) % 0x1_0000;
        if k < 64 { RowStep(address, k); }
      }
      if live == 0 { return false; }
      forall j | 0 <= j < 64 {
        mem[address / 2 + j] := AndWord(mem[address / 2 + j], latches[j]);
      }
      live := live - 1;
      log := log + [Program(address / 2, RowWords(block))];
      assert mem[..] == Programmed(old(mem[..]), address / 2, RowWords(block));
      return true;
    }

    method FlashReadWord(address: nat) returns (w: Word)
      requires Valid() && address % 2 == 0 && address < APP_PROGSPACE_END
      ensures w == mem[address / 2]
    {
      w := mem[address / 2];
    }
  }
}
