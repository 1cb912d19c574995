/**
 The device side of a firmware image (ioio_file.c): an incremental parser that
 erases and programs flash as blocks arrive.

 An image is an 8-byte header followed by 196-byte blocks: a little-endian
 address and one flash row.
 */
module IoioFile {
  import opened Bytes
  import opened Flash

  const HEADER: seq<byte> := [0x49, 0x4F, 0x49, 0x4F, 1, 0, 0, 0]
  const INVALID_ADDRESS: nat := 0xFFFF_FFFF

  // ---------------------------------------------------------------- parser

  /** The parser and the flash behind it. `field` is what arrived of the current header or block. */
  datatype Loader = Loader(inHeader: bool, field: seq<byte>, lastPage: nat, flash: State) {
    function Need(): nat {
      if inHeader then 8 else 196
    }

    predicate Valid() {
      |field| <= Need() && flash.Valid()
    }

    /** Exactly between two blocks: where the file may end. */
    predicate Done() {
      !inHeader && field == []
    }
  }

  function Init(flash: State): Loader {
    Loader(true, [], INVALID_ADDRESS, flash)
  }

  predicate AddressOk(address: nat, lastPage: nat) {
    && address % 0x80 == 0
    && MIN_APP_ADDRESS <= address < MAX_APP_ADDRESS
    && !(lastPage != INVALID_ADDRESS && address < lastPage)
  }

  /** Erases the page of a block unless it is the page of the block before, then programs the row. */
  function LoadBlock(flash: State, lastPage: nat, block: seq<byte>): (r: (State, nat, bool))
    requires |block| == 196
    ensures flash.Valid() ==> r.0.Valid()
  {
    var address := Le32(block);
    if !AddressOk(address, lastPage) then (flash, lastPage, false)
    else
      var page := PageOf(address);
      var (erased, ok) := if page == lastPage then (flash, true) else ErasePage(flash, page);
      if !ok then (erased, lastPage, false)
      else
        var (written, ok') := ProgramWords(erased, address, RowWords(block[4..]));
        (written, page, ok')
  }

  /** What happens when the last byte of a field has arrived. A field that is refused stays in place. */
  function FieldDone(s: Loader): (r: (Loader, bool))
    requires s.Valid() && |s.field| == s.Need()
    ensures r.0.Valid()
    ensures r.1 ==> r.0.field == [] && !r.0.inHeader
    ensures !r.1 ==> r.0.field == s.field && r.0.inHeader == s.inHeader
  {
    if s.inHeader then
      if s.field != HEADER then (s, false) else (s.(inHeader := false, field := []), true)
    else
      var (flash, lastPage, ok) := LoadBlock(s.flash, s.lastPage, s.field);
      (Loader(false, if ok then [] else s.field, lastPage, flash), ok)
  }

  /** One buffer, byte by byte. A refused field ends the buffer and is tried again by the next one. */
  function Feed(s: Loader, data: seq<byte>): (r: (Loader, bool))
    requires s.Valid()
    ensures r.0.Valid()
    decreases |data|, |s.field|
  {
    if data == [] then (s, true)
    else if |s.field| == s.Need() then
      var (s', ok) := FieldDone(s);
      if !ok then (s', false) else Feed(s', data)
    else
      var s1 := s.(field := s.field + [data[0]]);
      if |s1.field| < s1.Need() then Feed(s1, data[1..])
      else
        var (s2, ok) := FieldDone(s1);
        if !ok then (s2, false) else Feed(s2, data[1..])
  }

  /** A buffer that does not complete the field is only stored; the source copies it in one piece. */
  lemma {:induction false} FeedStored(s: Loader, chunk: seq<byte>, rest: seq<byte>)
    requires s.Valid() && |s.field| + |chunk| < s.Need()
    ensures Feed(s, chunk + rest) == Feed(s.(field := s.field + chunk), rest)
    decreases |chunk|
  {
    if chunk == [] {
      assert chunk + rest == rest && s.field + chunk == s.field;
    } else {
      var s1 := s.(field := s.field + [chunk[0]]);
      assert (chunk + rest)[1..] == chunk[1..] + rest;
      assert s1.field + chunk[1..] == s.field + chunk;
      FeedStored(s1, chunk[1..], rest);
    }
  }

  /** A chunk that completes the field exactly. */
  lemma {:induction false} FeedCompletes(s: Loader, chunk: seq<byte>, rest: seq<byte>)
    requires s.Valid() && chunk != [] && |s.field| + |chunk| == s.Need()
    ensures Feed(s, chunk + rest) ==
            var (s', ok) := FieldDone(s.(field := s.field + chunk));
            if !ok then (s', false) else Feed(s', rest)
  {
    var n := |chunk| - 1;
    var init, last := chunk[..n], chunk[n];
    assert chunk + rest == init + ([last] + rest);
    FeedStored(s, init, [last] + rest);
    assert s.field + init + [last] == s.field + chunk;
    assert ([last] + rest)[1..] == rest;
  }

  /** How the stream is cut into buffers makes no difference. */
  lemma {:induction false} FeedSplit(s: Loader, a: seq<byte>, b: seq<byte>)
    requires s.Valid()
    ensures Feed(s, a + b) == if Feed(s, a).1 then Feed(Feed(s, a).0, b) else Feed(s, a)
    decreases |a|, |s.field|
  {
    if a == [] {
      assert a + b == b;
    } else if |s.field| == s.Need() {
      var (s', ok) := FieldDone(s);
      if ok { FeedSplit(s', a, b); }
    } else {
      var s1 := s.(field := s.field + [a[0]]);
      assert (a + b)[1..] == a[1..] + b;
      if |s1.field| < s1.Need() {
        FeedSplit(s1, a[1..], b);
      } else {
        var (s2, ok) := FieldDone(s1);
        if ok { FeedSplit(s2, a[1..], b); }
      }
    }
  }

  function Joined(buffers: seq<seq<byte>>): seq<byte> {
    if buffers == [] then [] else buffers[0] + Joined(buffers[1..])
  }

  /** The buffers one after the other, up to the first one that is refused. */
  function FeedAll(s: Loader, buffers: seq<seq<byte>>): (Loader, bool)
    requires s.Valid()
    decreases |buffers|
  {
    if buffers == [] then (s, true)
    else
      var (s', ok) := Feed(s, buffers[0]);
      if ok then FeedAll(s', buffers[1..]) else (s', false)
  }

  lemma {:induction false} SplitDoesNotMatter(s: Loader, buffers: seq<seq<byte>>)
    requires s.Valid()
    ensures FeedAll(s, buffers) == Feed(s, Joined(buffers))
    decreases |buffers|
  {
    if buffers != [] {
      FeedSplit(s, buffers[0], Joined(buffers[1..]));
      var (s', ok) := Feed(s, buffers[0]);
      if ok { SplitDoesNotMatter(s', buffers[1..]); }
    }
  }

  /** A refused field is refused again, with no effect, until the parser is initialised. */
  lemma RefusalRepeats(s: Loader)
    requires s.Valid() && |s.field| == s.Need() && !FieldDone(s).1
    ensures FieldDone(FieldDone(s).0) == FieldDone(s)
  {
    if !s.inHeader {
      var address := Le32(s.field);
      var page := PageOf(address);
      if AddressOk(address, s.lastPage) && page != s.lastPage && ErasePage(s.flash, page).1 {
        assert AddressOk(address, page);
      }
    }
  }

  lemma {:induction false} FeedRefused(s: Loader, data: seq<byte>)
    requires s.Valid() && !Feed(s, data).1
    ensures var s' := Feed(s, data).0;
            && |s'.field| == s'.Need()
            && !s'.Done()
            && forall more: seq<byte> :: Feed(s', more) == (s', more == [])
    decreases |data|, |s.field|
  {
    if |s.field| == s.Need() {
      if FieldDone(s).1 { FeedRefused(FieldDone(s).0, data); } else { RefusalRepeats(s); }
    } else {
      var s1 := s.(field := s.field + [data[0]]);
      if |s1.field| < s1.Need() {
        FeedRefused(s1, data[1..]);
      } else if FieldDone(s1).1 {
        FeedRefused(FieldDone(s1).0, data[1..]);
      } else {
        RefusalRepeats(s1);
      }
    }
  }

  // --------------------------------------------------- meaning of an image

  datatype Block = Block(address: word, row: RowData)

  type RowData = s: seq<byte> | |s| == 192 witness seq(192, _ => 0 as byte)

  function Encode(b: Block): (r: seq<byte>)
    ensures |r| == 196
  {
    ToLe32(b.address) + b.row
  }

  function Decode(bytes: seq<byte>): (b: Block)
    requires |bytes| == 196
  {
    Block(Le32(bytes), bytes[4..])
  }

  lemma DecodeEncode(b: Block)
    ensures Decode(Encode(b)) == b
  {
    assert Encode(b)[..4] == ToLe32(b.address);
    assert Le32(Encode(b)) == Le32(ToLe32(b.address));
    assert Encode(b)[4..] == b.row;
  }

  type Blocks = seq<Block>

  /** The blocks of a body whose length is a multiple of 196. */
  function DecodeAll(body: seq<byte>): (r: Blocks)
    requires |body| % 196 == 0
    ensures |r| == |body| / 196
    decreases |body|
  {
    if body == [] then []
    else
      var n := |body| - 196;
      DecodeAll(body[..n]) + [Decode(body[n..])]
  }

  predicate InRange(b: Block) {
    b.address % 0x80 == 0 && MIN_APP_ADDRESS <= b.address < MAX_APP_ADDRESS
  }

  /** What the parser demands of a list of blocks: rows in the application range, pages never going back. */
  predicate Acceptable(blocks: Blocks) {
    && (forall b :: b in blocks ==> InRange(b))
    && (forall i, j :: 0 <= i < j < |blocks| ==> PageNumber(blocks[i].address) <= PageNumber(blocks[j].address))
  }

  predicate Covers(b: Block, word: nat) {
    b.address / 2 <= word < b.address / 2 + 64
  }

  /** What a block says about a word index; all ones where it says nothing. */
  function WordIn(b: Block, word: nat): Word
  {
    if Covers(b, word) then RowWords(b.row)[word - b.address / 2] else ERASED
  }

  predicate TouchesPage(blocks: Blocks, word: nat) {
    exists b :: b in blocks && PageNumber(b.address) == word / 512
  }

  /** The AND of everything the blocks say about one word. */
  function Overlay(blocks: Blocks, word: nat): Word
  {
    if blocks == [] then ERASED
    else
      var n := |blocks| - 1;
      AndWord(Overlay(blocks[..n], word), WordIn(blocks[n], word))
  }

  /**
   The flash an image stands for, without reference to the order of its blocks:
   pages it does not touch keep their contents, and every word of a touched
   page is the AND of what the blocks say about it.
   */
  function Meaning(mem: seq<Word>, blocks: Blocks): (r: seq<Word>)
    ensures |r| == |mem|
  {
    seq(|mem|, i requires 0 <= i < |mem| => if TouchesPage(blocks, i) then Overlay(blocks, i) else mem[i])
  }

  predicate NewPage(blocks: Blocks)
    requires blocks != []
  {
    var n := |blocks| - 1;
    n == 0 || PageNumber(blocks[n].address) != PageNumber(blocks[n - 1].address)
  }

  /** The flash operations an image stands for. */
  function Operations(blocks: Blocks): (ops: seq<Op>)
  {
    if blocks == [] then []
    else
      var n := |blocks| - 1;
      var b := blocks[n];
      Operations(blocks[..n])
      + (if NewPage(blocks) then [Erase(PageNumber(b.address))] else [])
      + [Program(b.address / 2, RowWords(b.row))]
  }

  // ----------------------------------------------- the parser and the meaning

  function LastPage(blocks: Blocks): nat {
    if blocks == [] then INVALID_ADDRESS else PageOf(blocks[|blocks| - 1].address)
  }

  /** The parser between two blocks, after it has loaded `blocks` on `flash`. */
  ghost predicate Loaded(s: Loader, flash: State, blocks: Blocks) {
    && Acceptable(blocks)
    && s.Done()
    && s.lastPage == LastPage(blocks)
    && s.flash.mem == Meaning(flash.mem, blocks)
    && s.flash.log == flash.log + Operations(blocks)
    && s.flash.live == flash.live - |Operations(blocks)|
  }

  lemma AcceptableSnoc(blocks: Blocks, b: Block)
    requires Acceptable(blocks)
    ensures Acceptable(blocks + [b]) <==> AddressOk(b.address, LastPage(blocks))
  {
    var more: Blocks := blocks + [b];
    var n := |blocks|;
    assert more[..n] == blocks;
    assert more[n] == b && b in more;
    if n > 0 { assert blocks[n - 1] in blocks; }
    if Acceptable(more) {
      if n > 0 { assert PageNumber(more[n - 1].address) <= PageNumber(more[n].address); }
    }
    if AddressOk(b.address, LastPage(blocks)) {
      forall i, j | 0 <= i < j < |more| ensures PageNumber(more[i].address) <= PageNumber(more[j].address) {
        if j == n && i < n - 1 {
          assert PageNumber(blocks[i].address) <= PageNumber(blocks[n - 1].address);
        }
      }
    }
  }

  lemma CoversSamePage(b: Block, word: nat)
    requires b.address % 0x80 == 0 && Covers(b, word)
    ensures PageNumber(b.address) == word / 512
  {
    var row := b.address / 0x80;
    assert b.address == 0x80 * row;
    assert word / 64 == row;
  }

  lemma {:induction false} OverlayOutside(blocks: Blocks, word: nat)
    requires !TouchesPage(blocks, word)
    requires forall b :: b in blocks ==> b.address % 0x80 == 0
    ensures Overlay(blocks, word) == ERASED
  {
    if blocks != [] {
      var n := |blocks| - 1;
      var init: Blocks := blocks[..n];
      assert blocks[n] in blocks;
      if Covers(blocks[n], word) { CoversSamePage(blocks[n], word); }
      OverlayOutside(init, word);
      AndWordErased(ERASED);
    }
  }

  /** No earlier page comes after the page of the block before. */
  lemma PagesUpTo(blocks: Blocks, b: Block)
    requires Acceptable(blocks + [b])
    ensures forall c :: c in blocks ==> PAGE_SIZE * PageNumber(c.address) <= LastPage(blocks) <= PageOf(b.address)
  {
    var more: Blocks := blocks + [b];
    var n := |blocks|;
    assert more[n] == b;
    forall c | c in blocks
      ensures PAGE_SIZE * PageNumber(c.address) <= LastPage(blocks) <= PageOf(b.address)
    {
      var k :| 0 <= k < n && blocks[k] == c;
      assert more[k] == c && more[n - 1] == blocks[n - 1];
      assert PageNumber(more[n - 1].address) <= PageNumber(more[n].address);
      if k < n - 1 { assert PageNumber(more[k].address) <= PageNumber(more[n - 1].address); }
    }
  }

  lemma ProgrammedAt(mem: seq<Word>, b: Block, i: nat)
    requires i < |mem|
    ensures Programmed(mem, b.address / 2, RowWords(b.row))[i] == AndWord(mem[i], WordIn(b, i))
  {
    AndWordErased(mem[i]);
  }

  lemma PageTouchedBySnoc(blocks: Blocks, b: Block, word: nat)
    ensures TouchesPage(blocks + [b], word) <==> TouchesPage(blocks, word) || PageNumber(b.address) == word / 512
  {
    var more: Blocks := blocks + [b];
    assert more[|blocks|] == b && b in more;
    if TouchesPage(blocks, word) {
      var c :| c in blocks && PageNumber(c.address) == word / 512;
      assert c in more;
    }
  }

  lemma MeaningElsewhere(mem: seq<Word>, blocks: Blocks, b: Block, i: nat)
    requires InRange(b) && PageNumber(b.address) != i / 512 && i < |mem|
    ensures Meaning(mem, blocks + [b])[i] == Meaning(mem, blocks)[i]
    ensures WordIn(b, i) == ERASED
  {
    if Covers(b, i) { CoversSamePage(b, i); }
    PageTouchedBySnoc(blocks, b, i);
    OverlaySnoc(blocks, b, i);
    AndWordErased(Overlay(blocks, i));
  }

  lemma OverlaySnoc(blocks: Blocks, b: Block, i: nat)
    ensures Overlay(blocks + [b], i) == AndWord(Overlay(blocks, i), WordIn(b, i))
  {
    assert (blocks + [b])[..|blocks|] == blocks;
  }

  lemma OverlayInPage(blocks: Blocks, b: Block, i: nat)
    requires Acceptable(blocks + [b]) && PageNumber(b.address) == i / 512
    ensures TouchesPage(blocks, i) <==> PageOf(b.address) == LastPage(blocks)
    ensures !TouchesPage(blocks, i) ==> Overlay(blocks, i) == ERASED
  {
    var more := blocks + [b];
    assert b == more[|blocks|] && b in more;
    AcceptablePrefix(blocks, b);
    PagesUpTo(blocks, b);
    if PageOf(b.address) == LastPage(blocks) {
      assert blocks[|blocks| - 1] in blocks;
    } else {
      OverlayOutside(blocks, i);
    }
  }

  lemma MeaningInPage(mem: seq<Word>, blocks: Blocks, b: Block, i: nat)
    requires PageNumber(b.address) == i / 512 && i < |mem|
    requires !TouchesPage(blocks, i) ==> Overlay(blocks, i) == ERASED
    ensures Meaning(mem, blocks + [b])[i]
            == AndWord(if TouchesPage(blocks, i) then Meaning(mem, blocks)[i] else ERASED, WordIn(b, i))
  {
    PageTouchedBySnoc(blocks, b, i);
    OverlaySnoc(blocks, b, i);
  }

  lemma MeaningSnocAt(mem: seq<Word>, blocks: Blocks, b: Block, i: nat)
    requires Acceptable(blocks) && Acceptable(blocks + [b]) && i < |mem|
    ensures var before := Meaning(mem, blocks);
            var erased := if PageOf(b.address) == LastPage(blocks) then before
                          else ErasedPage(before, PageNumber(b.address));
            Meaning(mem, blocks + [b])[i] == Programmed(erased, b.address / 2, RowWords(b.row))[i]
  {
    var before := Meaning(mem, blocks);
    var erased := if PageOf(b.address) == LastPage(blocks) then before
                  else ErasedPage(before, PageNumber(b.address));
    ProgrammedAt(erased, b, i);
    if PageNumber(b.address) != i / 512 {
      assert b == (blocks + [b])[|blocks|] && b in blocks + [b];
      MeaningElsewhere(mem, blocks, b, i);
      AndWordErased(before[i]);
    } else {
      OverlayInPage(blocks, b, i);
      MeaningInPage(mem, blocks, b, i);
    }
  }

  /** Loading one more acceptable block turns the meaning of a list into that of the longer list. */
  lemma MeaningSnoc(mem: seq<Word>, blocks: Blocks, b: Block)
    requires Acceptable(blocks) && Acceptable(blocks + [b])
    ensures var before := Meaning(mem, blocks);
            var erased := if PageOf(b.address) == LastPage(blocks) then before
                          else ErasedPage(before, PageNumber(b.address));
            Meaning(mem, blocks + [b]) == Programmed(erased, b.address / 2, RowWords(b.row))
  {
    forall i | 0 <= i < |mem| {
      MeaningSnocAt(mem, blocks, b, i);
    }
  }

  /** The operations of one block: an erase if its page is new, and the programming of its row. */
  function BlockOps(b: Block, lastPage: nat): seq<Op> {
    (if PageOf(b.address) == lastPage then [] else [Erase(PageNumber(b.address))])
    + [Program(b.address / 2, RowWords(b.row))]
  }

  lemma LoadBlockEffect(flash: State, lastPage: nat, bytes: seq<byte>)
    requires |bytes| == 196
    ensures var b := Decode(bytes);
            var ops := BlockOps(b, lastPage);
            var erased := if PageOf(b.address) == lastPage then flash.mem
                          else ErasedPage(flash.mem, PageNumber(b.address));
            var (flash', lastPage', ok) := LoadBlock(flash, lastPage, bytes);
            && (ok <==> AddressOk(b.address, lastPage) && |ops| <= flash.live)
            && (ok ==> && lastPage' == PageOf(b.address)
                       && flash' == State(Programmed(erased, b.address / 2, RowWords(b.row)),
                                          flash.live - |ops|, flash.log + ops))
  {
    var b := Decode(bytes);
    var page, ops := PageNumber(b.address), BlockOps(b, lastPage);
    assert PageNumber(PageOf(b.address)) == page;
    if PageOf(b.address) != lastPage {
      assert flash.log + [Erase(page)] + [Program(b.address / 2, RowWords(b.row))] == flash.log + ops;
    }
  }

  lemma BlockOpsSnoc(blocks: Blocks, b: Block)
    requires InRange(b)
    ensures Operations(blocks + [b]) == Operations(blocks) + BlockOps(b, LastPage(blocks))
  {
    NewPageIff(blocks, b);
    OperationsSnoc(blocks, b);
  }

  lemma LoadedNext(s: Loader, flash: State, blocks: Blocks, b: Block)
    requires Loaded(s, flash, blocks) && Acceptable(blocks + [b]) && InRange(b)
    requires |BlockOps(b, s.lastPage)| <= s.flash.live
    ensures var erased := if PageOf(b.address) == s.lastPage then s.flash.mem
                          else ErasedPage(s.flash.mem, PageNumber(b.address));
            var ops := BlockOps(b, s.lastPage);
            var after := State(Programmed(erased, b.address / 2, RowWords(b.row)),
                               s.flash.live - |ops|, s.flash.log + ops);
            Loaded(Loader(false, [], PageOf(b.address), after), flash, blocks + [b])
  {
    hide Meaning, Operations, Programmed, ErasedPage, RowWords, Acceptable;
    MeaningSnoc(flash.mem, blocks, b);
    BlockOpsSnoc(blocks, b);
    assert (blocks + [b])[|blocks|] == b;
  }

  /** One block: accepted exactly when the longer list is acceptable and enough operations remain. */
  lemma LoadOne(s: Loader, flash: State, blocks: Blocks, bytes: seq<byte>)
    requires s.Valid() && Loaded(s, flash, blocks) && |bytes| == 196
    ensures var b := Decode(bytes);
            var r := FieldDone(s.(field := bytes));
            && (r.1 <==> Acceptable(blocks + [b]) && |Operations(blocks + [b])| <= flash.live)
            && (r.1 ==> Loaded(r.0, flash, blocks + [b]))
  {
    var b := Decode(bytes);
    LoadBlockEffect(s.flash, s.lastPage, bytes);
    AcceptableSnoc(blocks, b);
    if AddressOk(b.address, s.lastPage) {
      BlockOpsSnoc(blocks, b);
      if |BlockOps(b, s.lastPage)| <= s.flash.live { LoadedNext(s, flash, blocks, b); }
    }
  }

  lemma NewPageIff(blocks: Blocks, b: Block)
    requires InRange(b)
    ensures NewPage(blocks + [b]) <==> PageOf(b.address) != LastPage(blocks)
  {
    var n := |blocks|;
    assert (blocks + [b])[n] == b;
    if n > 0 { assert (blocks + [b])[n - 1] == blocks[n - 1]; }
  }

  lemma {:induction false} DecodeAllAppend(body: seq<byte>, bytes: seq<byte>)
    requires |body| % 196 == 0 && |bytes| == 196
    ensures DecodeAll(body + bytes) == DecodeAll(body) + [Decode(bytes)]
  {
    var all := body + bytes;
    assert all[..|all| - 196] == body && all[|all| - 196..] == bytes;
  }

  lemma OperationsGrow(blocks: Blocks, b: Block)
    ensures |Operations(blocks)| < |Operations(blocks + [b])|
  {
    assert (blocks + [b])[..|blocks|] == blocks;
  }

  lemma AcceptablePrefix(blocks: Blocks, b: Block)
    requires Acceptable(blocks + [b])
    ensures Acceptable(blocks)
  {
    var more: Blocks := blocks + [b];
    assert forall i :: 0 <= i < |blocks| ==> more[i] == blocks[i];
    assert forall c :: c in blocks ==> c in more;
  }

  /** A body of whole blocks is accepted exactly when its blocks are acceptable and enough operations remain. */
  lemma {:induction false} LoadBody(s: Loader, flash: State, body: seq<byte>)
    requires s.Valid() && Loaded(s, flash, []) && |body| % 196 == 0
    ensures var r := Feed(s, body);
            var blocks := DecodeAll(body);
            && (r.1 <==> Acceptable(blocks) && |Operations(blocks)| <= flash.live)
            && (r.1 ==> Loaded(r.0, flash, blocks))
    decreases |body|
  {
    if body != [] {
      var n := |body| - 196;
      var init, bytes := body[..n], body[n..];
      assert body == init + bytes;
      LoadBody(s, flash, init);
      FeedSplit(s, init, bytes);
      DecodeAllAppend(init, bytes);
      var blocks, b := DecodeAll(init), Decode(bytes);
      var (s1, ok) := Feed(s, init);
      if ok {
        LoadOne(s1, flash, blocks, bytes);
        FeedCompletes(s1, bytes, []);
        assert bytes + [] == bytes && s1.field + bytes == bytes;
      } else {
        OperationsGrow(blocks, b);
        if Acceptable(blocks + [b]) { AcceptablePrefix(blocks, b); }
      }
    }
  }

  /** A complete image: the header, whole blocks, and nothing the parser refuses. */
  predicate IsImage(stream: seq<byte>) {
    && |stream| >= 8 && stream[..8] == HEADER
    && (|stream| - 8) % 196 == 0
    && Acceptable(DecodeAll(stream[8..]))
  }

  function BlocksOf(stream: seq<byte>): Blocks
    requires IsImage(stream)
  {
    DecodeAll(stream[8..])
  }

  lemma MeaningOfNothing(mem: seq<Word>)
    ensures Meaning(mem, []) == mem
  {
  }

  /**
   A transfer ends well exactly when the stream is an image and the flash holds
   out, and then the flash is what the image means, by the image's operations.
   */
  lemma ImageAccepted(flash: State, stream: seq<byte>)
    requires flash.Valid()
    ensures var (s, ok) := Feed(Init(flash), stream);
            && (ok && s.Done() <==> IsImage(stream) && |Operations(BlocksOf(stream))| <= flash.live)
            && (ok && s.Done() ==> Loaded(s, flash, BlocksOf(stream)))
  {
    var start := Init(flash);
    MeaningOfNothing(flash.mem);
    if |stream| < 8 {
      FeedStored(start, stream, []);
      assert stream + [] == stream;
    } else {
      var header, body := stream[..8], stream[8..];
      assert stream == header + body && start.field + header == header;
      FeedCompletes(start, header, body);
      if header == HEADER {
        var s := FieldDone(start.(field := header)).0;
        assert Loaded(s, flash, []);
        WholeBlocks(s, flash, body);
      }
    }
  }

  lemma WholeBlocks(s: Loader, flash: State, body: seq<byte>)
    requires s.Valid() && Loaded(s, flash, [])
    ensures var r := Feed(s, body);
            && (r.1 && r.0.Done() <==>
                |body| % 196 == 0 && Acceptable(DecodeAll(body)) && |Operations(DecodeAll(body))| <= flash.live)
            && (r.1 && r.0.Done() ==> Loaded(r.0, flash, DecodeAll(body)))
  {
    var n := |body| - |body| % 196;
    var whole, rest := body[..n], body[n..];
    assert body == whole + rest;
    LoadBody(s, flash, whole);
    FeedSplit(s, whole, rest);
    if rest == [] {
      assert whole == body;
    } else {
      var (s1, ok) := Feed(s, whole);
      if ok {
        FeedStored(s1, rest, []);
        assert rest + [] == rest && s1.field + rest == rest;
      }
    }
  }

  // ------------------------------------------------------ order of operations

  function Opening(blocks: Blocks): seq<Op>
    requires blocks != []
  {
    if NewPage(blocks) then [Erase(PageNumber(blocks[|blocks| - 1].address))] else []
  }

  lemma OperationsSnoc(blocks: Blocks, b: Block)
    ensures Operations(blocks + [b])
            == Operations(blocks) + Opening(blocks + [b]) + [Program(b.address / 2, RowWords(b.row))]
  {
    assert (blocks + [b])[..|blocks|] == blocks;
  }

  /** A touched page is erased exactly once, any other page never. */
  lemma {:induction false} ErasesOnce(blocks: Blocks, page: nat)
    requires Acceptable(blocks)
    ensures multiset(Operations(blocks))[Erase(page)] == if TouchesPage(blocks, 512 * page) then 1 else 0
    decreases |blocks|
  {
    if blocks != [] {
      var n := |blocks| - 1;
      var init: Blocks, b := blocks[..n], blocks[n];
      assert blocks == init + [b];
      AcceptablePrefix(init, b);
      ErasesOnce(init, page);
      OperationsSnoc(init, b);
      OpeningCount(init, b, page);
    }
  }

  lemma OpeningCount(blocks: Blocks, b: Block, page: nat)
    requires Acceptable(blocks + [b])
    ensures multiset(Opening(blocks + [b]))[Erase(page)]
            == if TouchesPage(blocks + [b], 512 * page) && !TouchesPage(blocks, 512 * page) then 1 else 0
  {
    var more: Blocks := blocks + [b];
    var n := |blocks|;
    assert more[n] == b && b in more;
    PageTouchedBySnoc(blocks, b, 512 * page);
    PagesUpTo(blocks, b);
    if NewPage(more) {
      assert n > 0 ==> more[n - 1] == blocks[n - 1];
    } else {
      assert more[n - 1] == blocks[n - 1] && blocks[n - 1] in blocks;
    }
  }

  /** Every write is one aligned row, to a page that has been erased before. */
  predicate ErasedFirst(ops: seq<Op>) {
    forall j :: 0 <= j < |ops| && ops[j].Program? ==>
      |ops[j].values| == 64 && ops[j].first % 64 == 0 && Erase(ops[j].first / 512) in ops[..j]
  }

  lemma EraseBeforeLast(blocks: Blocks, b: Block)
    requires Acceptable(blocks) && InRange(b)
    ensures Erase(PageNumber(b.address)) in Operations(blocks) + Opening(blocks + [b])
  {
    var more := blocks + [b];
    var n := |blocks|;
    assert more[n] == b;
    if !NewPage(more) {
      assert more[n - 1] == blocks[n - 1];
      EraseOnRecord(blocks, PageNumber(b.address));
    }
  }

  lemma {:induction false} ErasesBeforePrograms(blocks: Blocks)
    requires Acceptable(blocks)
    ensures ErasedFirst(Operations(blocks))
    decreases |blocks|
  {
    if blocks != [] {
      var n := |blocks| - 1;
      var init: Blocks, b := blocks[..n], blocks[n];
      assert blocks == init + [b] && b in blocks && InRange(b);
      AcceptablePrefix(init, b);
      ErasesBeforePrograms(init);
      OperationsSnoc(init, b);
      RowPage(b.address);
      EraseBeforeLast(init, b);
      ErasedFirstSnoc(Operations(init), Opening(blocks), Program(b.address / 2, RowWords(b.row)));
    }
  }

  lemma ErasedFirstSnoc(ops: seq<Op>, erase: seq<Op>, program: Op)
    requires ErasedFirst(ops) && |erase| <= 1 && (forall e :: e in erase ==> e.Erase?)
    requires program.Program? && |program.values| == 64 && program.first % 64 == 0
    requires Erase(program.first / 512) in ops + erase
    ensures ErasedFirst(ops + erase + [program])
  {
    var all := ops + erase + [program];
    assert erase != [] ==> erase[0] in erase && all[|ops|] == erase[0];
    forall j | 0 <= j < |all| && all[j].Program?
      ensures |all[j].values| == 64 && all[j].first % 64 == 0 && Erase(all[j].first / 512) in all[..j]
    {
      if j < |ops| {
        assert all[j] == ops[j] && all[..j] == ops[..j];
      } else {
        assert all[|ops| + |erase|] == program && all[..|ops| + |erase|] == ops + erase;
      }
    }
  }

  lemma EraseOnRecord(blocks: Blocks, page: nat)
    requires Acceptable(blocks) && blocks != [] && page == PageNumber(blocks[|blocks| - 1].address)
    ensures Erase(page) in Operations(blocks)
  {
    assert blocks[|blocks| - 1] in blocks && TouchesPage(blocks, 512 * page);
    ErasesOnce(blocks, page);
    assert Erase(page) in multiset(Operations(blocks));
  }

  lemma RowPage(address: nat)
    requires address % 0x80 == 0
    ensures address / 2 % 64 == 0 && address / 2 / 512 == PageNumber(address)
  {
    assert address == 0x80 * (address / 0x80);
  }

  // ------------------------------------------------------------- confinement

  /** Whatever is fed to the parser, only words of the application range can change. */
  ghost predicate SameOutsideApplication(a: seq<Word>, b: seq<Word>) {
    && |a| == |b|
    && forall i :: 0 <= i < |a| && !(MIN_APP_ADDRESS <= 2 * i < MAX_APP_ADDRESS) ==> a[i] == b[i]
  }

  lemma ApplicationPage(address: nat, word: nat)
    requires MIN_APP_ADDRESS <= address < MAX_APP_ADDRESS && word / 512 == PageNumber(address)
    ensures MIN_APP_ADDRESS <= 2 * word < MAX_APP_ADDRESS
  {
  }

  lemma LoadBlockConfined(flash: State, lastPage: nat, block: seq<byte>)
    requires |block| == 196
    ensures SameOutsideApplication(flash.mem, LoadBlock(flash, lastPage, block).0.mem)
  {
    var address := Le32(block);
    if AddressOk(address, lastPage) {
      EraseConfined(flash, address);
      var (erased, ok) := if PageOf(address) == lastPage then (flash, true) else ErasePage(flash, PageOf(address));
      ProgramConfined(erased, Decode(block));
    }
  }

  lemma EraseConfined(flash: State, address: nat)
    requires MIN_APP_ADDRESS <= address < MAX_APP_ADDRESS
    ensures SameOutsideApplication(flash.mem, ErasePage(flash, PageOf(address)).0.mem)
  {
    assert PageNumber(PageOf(address)) == PageNumber(address);
    forall i: nat | i < |flash.mem| && i / 512 == PageNumber(address)
      ensures MIN_APP_ADDRESS <= 2 * i < MAX_APP_ADDRESS
    {
      ApplicationPage(address, i);
    }
  }

  lemma RowInApplication(address: nat, i: nat)
    requires address % 0x80 == 0 && MIN_APP_ADDRESS <= address < MAX_APP_ADDRESS
    requires address / 2 <= i < address / 2 + 64
    ensures MIN_APP_ADDRESS <= 2 * i < MAX_APP_ADDRESS
  {
    assert address == 0x80 * (address / 0x80);
  }

  lemma ProgramConfined(flash: State, b: Block)
    requires InRange(b)
    ensures SameOutsideApplication(flash.mem, ProgramWords(flash, b.address, RowWords(b.row)).0.mem)
  {
    hide RowWords, AndWord;
    forall i: nat | i < |flash.mem| && Covers(b, i) ensures MIN_APP_ADDRESS <= 2 * i < MAX_APP_ADDRESS {
      RowInApplication(b.address, i);
    }
  }

  lemma {:induction false} FeedConfined(s: Loader, data: seq<byte>)
    requires s.Valid()
    ensures SameOutsideApplication(s.flash.mem, Feed(s, data).0.flash.mem)
    decreases |data|, |s.field|
  {
    if data == [] {
    } else if |s.field| == s.Need() {
      if !s.inHeader { LoadBlockConfined(s.flash, s.lastPage, s.field); }
      if FieldDone(s).1 { FeedConfined(FieldDone(s).0, data); }
    } else {
      var s1 := s.(field := s.field + [data[0]]);
      if |s1.field| < s1.Need() {
        FeedConfined(s1, data[1..]);
      } else {
        if !s1.inHeader { LoadBlockConfined(s1.flash, s1.lastPage, s1.field); }
        if FieldDone(s1).1 { FeedConfined(FieldDone(s1).0, data[1..]); }
      }
    }
  }

  // -------------------------------------------- when a block can be read back

  /** Every bit set in a is set in b. */
  predicate BitsIn(a: Word, b: Word) {
    AndWord(a, b) == a
  }

  lemma BitsInAnd(x: Word, a: Word, b: Word)
    ensures BitsIn(AndWord(a, b), a) && BitsIn(AndWord(a, b), b)
    ensures BitsIn(x, a) && BitsIn(x, b) ==> BitsIn(x, AndWord(a, b))
    ensures BitsIn(x, a) && BitsIn(a, x) ==> x == a
    ensures BitsIn(x, a) && BitsIn(a, b) ==> BitsIn(x, b)
  {
    AndBits(x.lb, a.lb, b.lb); AndBits(x.hb, a.hb, b.hb); AndBits(x.ub, a.ub, b.ub);
  }

  lemma AndBits(x: byte, a: byte, b: byte)
    ensures And(And(a, b), a) == And(a, b) && And(And(a, b), b) == And(a, b)
    ensures And(x, And(a, b)) == And(And(x, a), b)
    ensures And(x, a) == And(a, x)
    ensures And(x, And(a, b)) == And(And(x, a), b)
  {
    AndComm(x, a); AndComm(a, b);
    AndAssoc(x, a, b); AndAssoc(a, b, b); AndSelf(b);
    AndAssoc(b, a, a); AndSelf(a);
  }

  lemma {:induction false} OverlayBelow(blocks: Blocks, word: nat, b: Block)
    requires b in blocks
    ensures BitsIn(Overlay(blocks, word), WordIn(b, word))
    decreases |blocks|
  {
    var n := |blocks| - 1;
    var init: Blocks, last := blocks[..n], blocks[n];
    var o, w := Overlay(init, word), WordIn(last, word);
    BitsInAnd(o, o, w);
    if b != last {
      OverlayBelow(init, word, b);
      BitsInAnd(AndWord(o, w), o, WordIn(b, word));
    }
  }

  lemma {:induction false} OverlayAbove(blocks: Blocks, word: nat, x: Word)
    requires forall b :: b in blocks ==> BitsIn(x, WordIn(b, word))
    ensures BitsIn(x, Overlay(blocks, word))
    decreases |blocks|
  {
    if blocks == [] {
      AndWordErased(x);
    } else {
      var n := |blocks| - 1;
      var init: Blocks, last := blocks[..n], blocks[n];
      assert last in blocks;
      OverlayAbove(init, word, x);
      BitsInAnd(x, Overlay(init, word), WordIn(last, word));
    }
  }

  /**
   A block of an accepted image is in flash unchanged exactly when no other
   block of the image for the same address clears a bit it sets.
   */
  lemma BlockReadsBack(mem: seq<Word>, blocks: Blocks, b: Block)
    requires Acceptable(blocks) && b in blocks && 2 * |mem| == APP_PROGSPACE_END
    ensures (forall j :: 0 <= j < 64 ==> Meaning(mem, blocks)[b.address / 2 + j] == RowWords(b.row)[j])
        <==> (forall c, j :: c in blocks && c.address == b.address && 0 <= j < 64
               ==> BitsIn(RowWords(b.row)[j], RowWords(c.row)[j]))
  {
    var base := b.address / 2;
    forall j | 0 <= j < 64
      ensures Meaning(mem, blocks)[base + j] == RowWords(b.row)[j]
          <==> forall c :: c in blocks && c.address == b.address ==> BitsIn(RowWords(b.row)[j], RowWords(c.row)[j])
    {
      WordReadsBack(mem, blocks, b, j);
    }
  }

  lemma SameAddressWords(blocks: Blocks, b: Block, j: nat)
    requires Acceptable(blocks) && b in blocks && j < 64
    ensures forall c :: c in blocks ==> WordIn(c, b.address / 2 + j)
                                        == if c.address == b.address then RowWords(c.row)[j] else ERASED
  {
    forall c | c in blocks
      ensures WordIn(c, b.address / 2 + j) == if c.address == b.address then RowWords(c.row)[j] else ERASED
    {
      assert InRange(b) && InRange(c);
      if c.address != b.address { RowsDisjoint(b.address, c.address); }
    }
  }

  lemma MeaningInRow(mem: seq<Word>, blocks: Blocks, b: Block, j: nat)
    requires Acceptable(blocks) && b in blocks && 2 * |mem| == APP_PROGSPACE_END && j < 64
    ensures b.address / 2 + j < |mem|
    ensures Meaning(mem, blocks)[b.address / 2 + j] == Overlay(blocks, b.address / 2 + j)
  {
    assert InRange(b);
    CoversSamePage(b, b.address / 2 + j);
  }

  lemma WordReadsBack(mem: seq<Word>, blocks: Blocks, b: Block, j: nat)
    requires Acceptable(blocks) && b in blocks && 2 * |mem| == APP_PROGSPACE_END && j < 64
    ensures b.address / 2 + j < |mem|
    ensures Meaning(mem, blocks)[b.address / 2 + j] == RowWords(b.row)[j]
        <==> forall c :: c in blocks && c.address == b.address ==> BitsIn(RowWords(b.row)[j], RowWords(c.row)[j])
  {
    var word, x := b.address / 2 + j, RowWords(b.row)[j];
    MeaningInRow(mem, blocks, b, j);
    SameAddressWords(blocks, b, j);
    var o := Overlay(blocks, word);
    OverlayBelow(blocks, word, b);
    if o == x {
      forall c | c in blocks && c.address == b.address ensures BitsIn(x, RowWords(c.row)[j]) {
        OverlayBelow(blocks, word, c);
      }
    }
    if forall c :: c in blocks && c.address == b.address ==> BitsIn(x, RowWords(c.row)[j]) {
      forall c | c in blocks ensures BitsIn(x, WordIn(c, word)) { AndWordErased(x); }
      OverlayAbove(blocks, word, x);
      BitsInAnd(x, o, o);
    }
  }

  lemma RowsDisjoint(a: nat, c: nat)
    requires a % 0x80 == 0 && c % 0x80 == 0 && a != c
    ensures a / 2 + 64 <= c / 2 || c / 2 + 64 <= a / 2
  {
    assert a == 0x80 * (a / 0x80) && c == 0x80 * (c / 0x80);
  }

  /** Two blocks for one address: the second cannot restore the bits the first has cleared. */
  lemma RepeatedAddress() returns (blocks: Blocks, mem: seq<Word>)
    ensures Acceptable(blocks) && |blocks| == 2 && 2 * |mem| == APP_PROGSPACE_END
    ensures blocks[0].address == blocks[1].address == MIN_APP_ADDRESS
    ensures Meaning(mem, blocks)[blocks[1].address / 2] != RowWords(blocks[1].row)[0]
  {
    var zeros, ones := seq(192, _ => 0 as byte), seq(192, _ => 0xFF as byte);
    var first, second := Block(MIN_APP_ADDRESS, zeros), Block(MIN_APP_ADDRESS, ones);
    blocks := [first, second];
    mem := seq(APP_PROGSPACE_END / 2, _ => ERASED);
    WordReadsBack(mem, blocks, second, 0);
    assert first in blocks && second in blocks;
    assert And(0xFF, 0) == 0 by { AndFF(0); }
    assert !BitsIn(RowWords(ones)[0], RowWords(zeros)[0]);
  }

  // ------------------------------------------------------------ the C module

  class ImageFile {
    const buf: array<byte>
    var bufPos: nat
    var fieldRemaining: nat
    var lastPage: nat
    var inHeader: bool
    const device: FlashDevice

    ghost predicate Valid()
      reads this, device
    {
      && buf.Length == 196 && device.Valid()
      && bufPos + fieldRemaining == if inHeader then 8 else 196
    }

    ghost function Abs(): (s: Loader)
      reads this, buf, device, device.mem
      requires Valid()
      ensures s.Valid()
    {
      Loader(inHeader, buf[..bufPos], lastPage, device.Abs())
    }

    constructor (device: FlashDevice)
      requires device.Valid()
      ensures Valid() && fresh(buf) && this.device == device
      ensures Abs() == Init(device.Abs())
    {
      buf := new byte[196](_ => 0);
      this.device := device;
      bufPos, fieldRemaining, lastPage, inHeader := 0, 8, INVALID_ADDRESS, true;
    }

    method IOIOFileInit()
      requires Valid()
      modifies this
      ensures Valid() && Abs() == Init(device.Abs())
    {
      bufPos, fieldRemaining, lastPage, inHeader := 0, 8, INVALID_ADDRESS, true;
    }

    method IOIOFileBlockDone() returns (ok: bool)
      requires Valid() && fieldRemaining == 0
      modifies this, device, device.mem
      ensures Valid() && (Abs(), ok) == FieldDone(old(Abs()))
    {
      if inHeader {
        if buf[..8] != HEADER { return false; }
        bufPos, fieldRemaining, inHeader := 0, 196, false;
        return true;
      }
      var block := buf[..];
      assert buf[..bufPos] == block;
      var address := Le32(block);
      if address % 0x80 != 0 { return false; }
      if address < MIN_APP_ADDRESS || address >= MAX_APP_ADDRESS { return false; }
      if lastPage != INVALID_ADDRESS && address < lastPage { return false; }
      var page := PageOf(address);
      if page != lastPage {
        ok := device.FlashErasePage(page);
        if !ok { return false; }
        lastPage := page;
      }
      RowFits(address);
      ok := device.FlashWriteBlock(address, block[4..]);
      if !ok { return false; }
      bufPos, fieldRemaining := 0, 196;
      return true;
    }

    /** One round of the copying loop: as much of the data as the current field can take. */
    method Copy(data: seq<byte>) returns (n: nat)
      requires Valid() && data != []
      modifies this, buf
      ensures Valid() && n <= |data| && fieldRemaining == old(fieldRemaining) - n
      ensures n == |data| || fieldRemaining == 0
      ensures Abs() == old(Abs()).(field := old(Abs()).field + data[..n])
    {
      n := if fieldRemaining < |data| then fieldRemaining else |data|;
      forall i | 0 <= i < n { buf[bufPos + i] := data[i]; }
      bufPos, fieldRemaining := bufPos + n, fieldRemaining - n;
    }

    /** Copies and handles one field after the other until the data is used up or a field is refused. */
    method IOIOFileHandleBuffer(data: seq<byte>) returns (ok: bool)
      requires Valid()
      modifies this, buf, device, device.mem
      ensures Valid() && (Abs(), ok) == Feed(old(Abs()), data)
    {
      var rest := data;
      while rest != []
        invariant Valid()
        invariant Feed(old(Abs()), data) == Feed(Abs(), rest)
        decreases |rest|, bufPos
      {
        ghost var before := Abs();
        var n := Copy(rest);
        assert rest == rest[..n] + rest[n..];
        if fieldRemaining == 0 {
          if n > 0 {
            FeedCompletes(before, rest[..n], rest[n..]);
          } else {
            assert before.field + rest[..0] == before.field && rest[0..] == rest;
          }
          ok := IOIOFileBlockDone();
          if !ok { return false; }
        } else {
          FeedStored(before, rest[..n], rest[n..]);
        }
        rest := rest[n..];
      }
      return true;
    }

    method IOIOFileDone() returns (ok: bool)
      requires Valid()
      ensures ok == Abs().Done()
    {
      ok := !inHeader && fieldRemaining == 196;
    }
  }

  lemma RowFits(address: nat)
    requires address % 0x80 == 0 && address < MAX_APP_ADDRESS
    ensures address + 0x80 <= APP_PROGSPACE_END
  {
  }
}
