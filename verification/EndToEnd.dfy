/**
 From HEX text on the host to words in the device's flash: the translator, any
 cutting of its output into buffers, and the loader, taken together.
 */
module EndToEnd {
  import opened Bytes
  import opened Flash
  import opened IoioFile
  import opened Hex

  // ------------------------------------------- the image the translator emits

  lemma DecodeEncodeNext(blocks: Blocks, b: Block)
    requires |EncodeAll(blocks)| == 196 * |blocks| && DecodeAll(EncodeAll(blocks)) == blocks
    ensures |EncodeAll(blocks + [b])| == 196 * |blocks + [b]| && DecodeAll(EncodeAll(blocks + [b])) == blocks + [b]
  {
    assert (blocks + [b])[..|blocks|] == blocks;
    DecodeAllAppend(EncodeAll(blocks), Encode(b));
    DecodeEncode(b);
  }

  lemma {:induction false} DecodeEncodeAll(blocks: Blocks)
    ensures |EncodeAll(blocks)| == 196 * |blocks| && DecodeAll(EncodeAll(blocks)) == blocks
  {
    if blocks != [] {
      var init, last := blocks[..|blocks| - 1], blocks[|blocks| - 1];
      assert init + [last] == blocks;
      hide *;
      DecodeEncodeAll(init);
      DecodeEncodeNext(init, last);
    }
  }

  predicate Ascending(blocks: Blocks) {
    forall i, j :: 0 <= i < j < |blocks| ==> blocks[i].address < blocks[j].address
  }

  lemma {:induction false} EmittedInOrder(mem: Memory, row: nat)
    requires row <= ROWS
    ensures Ascending(BlocksFrom(mem, row))
    decreases ROWS - row
  {
    if row < ROWS {
      EmittedInOrder(mem, row + 1);
      var blocks, rest := BlocksFrom(mem, row), BlocksFrom(mem, row + 1);
      BlocksFromProperties(mem, row + 1);
      if HasRow(mem, row) {
        assert blocks[0].address == 0x80 * row && blocks[1..] == rest;
        forall i, j | 0 <= i < j < |blocks| ensures blocks[i].address < blocks[j].address {
          assert blocks[j] == rest[j - 1] && rest[j - 1] in rest;
          if i > 0 { assert blocks[i] == rest[i - 1]; }
        }
      }
    }
  }

  /** Two addresses per word, two bytes per address. */
  predicate InApplication(mem: Memory) {
    forall a :: a in mem ==> MIN_APP_ADDRESS <= a / 2 < MAX_APP_ADDRESS
  }

  lemma RowInApplication(a: nat)
    ensures MIN_APP_ADDRESS <= a / 2 < MAX_APP_ADDRESS <==> MIN_APP_ADDRESS <= 0x80 * (a / 0x100) < MAX_APP_ADDRESS
    ensures 0x80 * (a / 0x100) % 0x80 == 0
  {
  }

  /** Every emitted block comes from a byte of the file. */
  lemma SourceOfBlock(mem: Memory, b: Block) returns (a: nat)
    requires b in BlocksFrom(mem, 0)
    ensures a in mem && b.address == 0x80 * (a / 0x100)
  {
    hide BlocksFrom, RowBytes;
    BlocksFromProperties(mem, 0);
    var r :| 0 <= r < ROWS && HasRow(mem, r) && b == Block(0x80 * r, RowBytes(mem, r));
    a :| a in mem && a / 0x100 == r;
  }

  /** Every byte of the file is in an emitted block. */
  lemma BlockOfByte(mem: Memory, a: nat) returns (b: Block)
    requires a in mem
    ensures b in BlocksFrom(mem, 0) && b.address == 0x80 * (a / 0x100)
  {
    BlocksFromProperties(mem, 0);
    var r := a / 0x100;
    assert HasRow(mem, r);
    b := Block(0x80 * r, RowBytes(mem, r));
  }

  /** The loader's demands on the emitted blocks come down to the range of the data. */
  lemma EmittedAcceptable(mem: Memory)
    ensures Acceptable(BlocksFrom(mem, 0)) <==> InApplication(mem)
  {
    var blocks := BlocksFrom(mem, 0);
    if InApplication(mem) {
      forall b | b in blocks ensures InRange(b) {
        var a := SourceOfBlock(mem, b);
        RowInApplication(a);
      }
      EmittedInOrder(mem, 0);
      forall i, j | 0 <= i < j < |blocks| ensures PageNumber(blocks[i].address) <= PageNumber(blocks[j].address) {
        assert blocks[i].address < blocks[j].address;
      }
    }
    if Acceptable(blocks) {
      forall a | a in mem ensures MIN_APP_ADDRESS <= a / 2 < MAX_APP_ADDRESS {
        var b := BlockOfByte(mem, a);
        assert InRange(b);
        RowInApplication(a);
      }
    }
  }

  // -------------------------------------------------------- words and bytes

  /** The word at index i is made of the three bytes from 4i on. */
  function HexWord(mem: Memory, i: nat): Word {
    Word(ByteAt(mem, 4 * i), ByteAt(mem, 4 * i + 1), ByteAt(mem, 4 * i + 2))
  }

  /** Some byte of the file lies in the flash page of word i. */
  predicate PageWritten(mem: Memory, i: nat) {
    exists a :: a in mem && a / 0x800 == i / 512
  }

  /** The flash a HEX file stands for. */
  function FlashMeaning(before: seq<Word>, mem: Memory): (after: seq<Word>)
    ensures |after| == |before|
  {
    seq(|before|, i requires 0 <= i < |before| => if PageWritten(mem, i) then HexWord(mem, i) else before[i])
  }

  lemma TouchedIsWritten(mem: Memory, i: nat)
    ensures TouchesPage(BlocksFrom(mem, 0), i) <==> PageWritten(mem, i)
  {
    var blocks := BlocksFrom(mem, 0);
    if TouchesPage(blocks, i) {
      var b :| b in blocks && PageNumber(b.address) == i / 512;
      var a := SourceOfBlock(mem, b);
      RowInPage(a);
    }
    if PageWritten(mem, i) {
      var a :| a in mem && a / 0x800 == i / 512;
      var b := BlockOfByte(mem, a);
      RowInPage(a);
    }
  }

  lemma RowInPage(a: nat)
    ensures PageNumber(0x80 * (a / 0x100)) == a / 0x800
  {
  }

  /** Each emitted block says what the file says about its own words, and nothing about others. */
  lemma WordOfRow(mem: Memory, row: nat, i: nat)
    requires row < ROWS
    ensures WordIn(Block(0x80 * row, RowBytes(mem, row)), i) == if i / 64 == row then HexWord(mem, i) else ERASED
  {
    if i / 64 == row {
      var j := i - 64 * row;
      assert 3 * j / 3 == j && (3 * j + 1) / 3 == j && (3 * j + 2) / 3 == j;
      assert 0x100 * row + 4 * j == 4 * i;
    }
  }

  lemma EmittedAbove(mem: Memory, i: nat)
    ensures BitsIn(HexWord(mem, i), Overlay(BlocksFrom(mem, 0), i))
  {
    var blocks, x := BlocksFrom(mem, 0), HexWord(mem, i);
    BlocksFromProperties(mem, 0);
    forall b | b in blocks ensures BitsIn(x, WordIn(b, i)) {
      var r :| 0 <= r < ROWS && HasRow(mem, r) && b == Block(0x80 * r, RowBytes(mem, r));
      WordOfRow(mem, r, i);
      AndWordErased(x);
      BitsInSelf(x);
    }
    OverlayAbove(blocks, i, x);
  }

  lemma EmittedBelow(mem: Memory, i: nat)
    requires i / 64 < ROWS && HasRow(mem, i / 64)
    ensures BitsIn(Overlay(BlocksFrom(mem, 0), i), HexWord(mem, i))
  {
    BlocksFromProperties(mem, 0);
    var b := Block(0x80 * (i / 64), RowBytes(mem, i / 64));
    assert b in BlocksFrom(mem, 0);
    OverlayBelow(BlocksFrom(mem, 0), i, b);
    WordOfRow(mem, i / 64, i);
  }

  /** What the emitted blocks say about a word, together, is what the file says about it. */
  lemma OverlayOfEmitted(mem: Memory, i: nat)
    ensures Overlay(BlocksFrom(mem, 0), i) == HexWord(mem, i)
  {
    var o := Overlay(BlocksFrom(mem, 0), i);
    EmittedAbove(mem, i);
    if i / 64 < ROWS && HasRow(mem, i / 64) {
      EmittedBelow(mem, i);
      BitsInAnd(HexWord(mem, i), o, o);
    } else {
      NoRowNoBytes(mem, i);
      AndWordErased(o);
    }
  }

  lemma BitsInSelf(x: Word)
    ensures BitsIn(x, x)
  {
    AndSelf(x.lb); AndSelf(x.hb); AndSelf(x.ub);
  }

  lemma NoRowNoBytes(mem: Memory, i: nat)
    requires i / 64 >= ROWS || !HasRow(mem, i / 64)
    ensures HexWord(mem, i) == ERASED
  {
    assert 4 * i / 0x100 == i / 64 && (4 * i + 1) / 0x100 == i / 64 && (4 * i + 2) / 0x100 == i / 64;
  }

  lemma MeaningIsFlashMeaning(before: seq<Word>, mem: Memory)
    ensures Meaning(before, BlocksFrom(mem, 0)) == FlashMeaning(before, mem)
  {
    forall i | 0 <= i < |before|
      ensures Meaning(before, BlocksFrom(mem, 0))[i] == FlashMeaning(before, mem)[i]
    {
      TouchedIsWritten(mem, i);
      OverlayOfEmitted(mem, i);
    }
  }

  // ------------------------------------------------------------ main theorem

  /**
   A translated HEX file, cut into buffers in any way, is accepted exactly when
   its data lie in the application range and the flash holds out. Then every
   word of a page the file writes to is the last-written bytes at twice its
   address, all ones where the file says nothing; every other word is as it was;
   and the flash has been driven by erasing each such page once, before writing
   to it.
   */
  lemma HexToFlash(lines: seq<Line>, buffers: seq<seq<byte>>, flash: State)
    requires flash.Valid() && HexMeaning(lines).Some?
    requires Joined(buffers) == Image(HexMeaning(lines).value)
    ensures var mem := HexMeaning(lines).value;
            var ops := Operations(BlocksFrom(mem, 0));
            var (s, ok) := FeedAll(Init(flash), buffers);
            && (ok && s.Done() <==> InApplication(mem) && |ops| <= flash.live)
            && (ok && s.Done() ==>
                && s.flash.mem == FlashMeaning(flash.mem, mem)
                && s.flash.log == flash.log + ops
                && ErasedFirst(ops)
                && forall page: nat :: multiset(ops)[Erase(page)]
                                  == if PageWritten(mem, 512 * page) then 1 else 0)
            && SameOutsideApplication(flash.mem, s.flash.mem)
  {
    var mem := HexMeaning(lines).value;
    var image, blocks := Image(mem), BlocksFrom(mem, 0);
    SplitDoesNotMatter(Init(flash), buffers);
    FeedConfined(Init(flash), image);
    ImageAccepted(flash, image);
    EmittedIsImage(mem);
    MeaningIsFlashMeaning(flash.mem, mem);
    if Acceptable(blocks) {
      ErasesBeforePrograms(blocks);
      forall page: nat
        ensures multiset(Operations(blocks))[Erase(page)] == if PageWritten(mem, 512 * page) then 1 else 0
      {
        ErasesOnce(blocks, page);
        TouchedIsWritten(mem, 512 * page);
      }
    }
  }

  lemma EmittedIsImage(mem: Memory)
    ensures IsImage(Image(mem)) <==> InApplication(mem)
    ensures IsImage(Image(mem)) ==> BlocksOf(Image(mem)) == BlocksFrom(mem, 0)
    ensures Acceptable(BlocksFrom(mem, 0)) <==> InApplication(mem)
  {
    hide BlocksFrom, EncodeAll, Acceptable, InApplication, DecodeAll;
    var image, blocks := Image(mem), BlocksFrom(mem, 0);
    DecodeEncodeAll(blocks);
    EmittedAcceptable(mem);
    assert image[..8] == HEADER && image[8..] == EncodeAll(blocks);
  }
}
