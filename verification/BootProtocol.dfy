/**
 The framed protocol of the USB bootloader (boot_protocol.c): one type byte,
 arguments of a size that the type fixes, and for WRITE_IMAGE a file of the
 announced size, which goes to the image loader as it arrives.
 */
module BootProtocol {
  import opened Bytes
  import opened Flash
  import opened IoioFile
  import opened ConfigPage
  import opened BootFeatures

  const HARD_RESET := 0
  const CHECK_INTERFACE := 1
  const READ_FINGERPRINT := 2
  const WRITE_FINGERPRINT := 3
  const WRITE_IMAGE := 4
  const MESSAGE_TYPE_LIMIT := 5

  const IOIO_MAGIC: word := 0x4F49_4F49

  /** "BOOT0001" */
  const INTERFACE_ID: seq<byte> := [0x42, 0x4F, 0x4F, 0x54, 0x30, 0x30, 0x30, 0x31]

  function ArgSize(kind: byte): nat
    requires kind < MESSAGE_TYPE_LIMIT
  {
    if kind == HARD_RESET then 4
    else if kind == CHECK_INTERFACE then 8
    else if kind == READ_FINGERPRINT then 0
    else if kind == WRITE_FINGERPRINT then 16
    else 4
  }

  datatype RxState = WaitType | WaitArgs | WaitFile

  datatype Reply = InterfaceReply(supported: bool) | FingerprintReply(fingerprint: Fingerprint) | ChecksumReply(sum: half)

  datatype Outcome = Ready | Refused | Rebooted

  /** `msg` is the type byte and the arguments so far; `remaining` counts down to the end of the current part. */
  datatype Proto = Proto(
    state: RxState, msg: seq<byte>, remaining: nat, checksum: half, loader: Loader, sent: seq<Reply>)
  {
    predicate Valid() {
      && loader.Valid() && remaining > 0
      && match state
         case WaitType => msg == [] && remaining == 1
         case WaitArgs => msg != [] && msg[0] < MESSAGE_TYPE_LIMIT && |msg| + remaining == 1 + ArgSize(msg[0])
         case WaitFile => msg == [] && remaining < 0x1_0000_0000
    }

    function Mem(): seq<Word> { loader.flash.mem }
  }

  function Idle(p: Proto): Proto {
    p.(state := WaitType, msg := [], remaining := 1)
  }

  function FileDone(p: Proto): (r: (Proto, Outcome))
    requires p.loader.Valid()
    ensures r.1 == Ready ==> r.0.Valid()
  {
    if !p.loader.Done() then (p, Refused)
    else (Idle(p.(sent := p.sent + [ChecksumReply(p.checksum)])), Ready)
  }

  /** What a message does once its arguments are there. */
  function MessageDone(p: Proto): (r: (Proto, Outcome))
    requires p.loader.Valid() && p.msg != [] && p.msg[0] < MESSAGE_TYPE_LIMIT && |p.msg| == 1 + ArgSize(p.msg[0])
    ensures r.1 == Ready ==> r.0.Valid()
  {
    var kind, args, q := p.msg[0], p.msg[1..], Idle(p);
    if kind == HARD_RESET then (q, if Le32(args) == IOIO_MAGIC then Rebooted else Refused)
    else if kind == CHECK_INTERFACE then (q.(sent := q.sent + [InterfaceReply(args == INTERFACE_ID)]), Ready)
    else if kind == READ_FINGERPRINT then (q.(sent := q.sent + [FingerprintReply(ReadBack(q.Mem()))]), Ready)
    else if kind == WRITE_FINGERPRINT then
      var (flash, ok) := WriteFingerprint(q.loader.flash, args);
      (q.(loader := q.loader.(flash := flash)), if ok then Ready else Refused)
    else
      var (flash, ok) := EraseFingerprint(q.loader.flash);
      if !ok then (q.(loader := q.loader.(flash := flash)), Refused)
      else
        var f := q.(state := WaitFile, remaining := Le32(args), checksum := 0, loader := Init(flash));
        if f.remaining == 0 then FileDone(f) else (f, Ready)
  }

  /** One byte of a file. */
  function FileByte(p: Proto, b: byte): (r: (Proto, Outcome))
    requires p.Valid() && p.state == WaitFile
    ensures r.1 == Ready ==> r.0.Valid()
  {
    var (loader, ok) := Feed(p.loader, [b]);
    var p' := p.(loader := loader, checksum := (p.checksum + b) % 0x1_0000);
    if !ok then (p', Refused)
    else if p.remaining > 1 then (p'.(remaining := p.remaining - 1), Ready)
    else FileDone(p')
  }

  function Step(p: Proto, b: byte): (r: (Proto, Outcome))
    requires p.Valid()
    ensures r.1 == Ready ==> r.0.Valid()
  {
    match p.state
    case WaitType =>
      if b >= MESSAGE_TYPE_LIMIT then (p, Refused)
      else
        var p' := p.(state := WaitArgs, msg := [b], remaining := ArgSize(b));
        if p'.remaining > 0 then (p', Ready) else MessageDone(p')
    case WaitArgs =>
      var p' := p.(msg := p.msg + [b], remaining := p.remaining - 1);
      if p'.remaining > 0 then (p', Ready) else MessageDone(p')
    case WaitFile => FileByte(p, b)
  }

  /** A buffer, up to the first byte that is refused or reboots the board. */
  function Receive(p: Proto, data: seq<byte>): (r: (Proto, Outcome))
    requires p.Valid()
    ensures r.1 == Ready ==> r.0.Valid()
    decreases |data|
  {
    if data == [] then (p, Ready)
    else
      var (p', outcome) := Step(p, data[0]);
      if outcome == Ready then Receive(p', data[1..]) else (p', outcome)
  }

  /** How the stream is cut into buffers makes no difference. */
  lemma {:induction false} ReceiveSplit(p: Proto, a: seq<byte>, b: seq<byte>)
    requires p.Valid()
    ensures Receive(p, a + b) == if Receive(p, a).1 == Ready then Receive(Receive(p, a).0, b) else Receive(p, a)
    decreases |a|
  {
    if a == [] {
      assert a + b == b;
    } else {
      assert (a + b)[1..] == a[1..] + b;
      var (p', outcome) := Step(p, a[0]);
      if outcome == Ready { ReceiveSplit(p', a[1..], b); }
    }
  }

  // ------------------------------------------------------ whole parts at once

  lemma TypeReceived(p: Proto, kind: byte)
    requires p.Valid() && p.state == WaitType
    ensures kind >= MESSAGE_TYPE_LIMIT ==> Receive(p, [kind]) == (p, Refused)
    ensures kind < MESSAGE_TYPE_LIMIT ==>
              var t := p.(state := WaitArgs, msg := [kind], remaining := ArgSize(kind));
              Receive(p, [kind]) == if t.remaining > 0 then (t, Ready) else MessageDone(t)
  {
    hide MessageDone;
  }

  lemma {:induction false} ArgsStored(p: Proto, data: seq<byte>)
    requires p.Valid() && p.state == WaitArgs && |data| < p.remaining
    ensures Receive(p, data) == (p.(msg := p.msg + data, remaining := p.remaining - |data|), Ready)
    decreases |data|
  {
    if data == [] {
      assert p.msg + data == p.msg;
    } else {
      var p' := p.(msg := p.msg + [data[0]], remaining := p.remaining - 1);
      ArgsStored(p', data[1..]);
      assert p.msg + data == p.msg + [data[0]] + data[1..];
    }
  }

  lemma ArgsComplete(p: Proto, data: seq<byte>)
    requires p.Valid() && p.state == WaitArgs && |data| == p.remaining
    ensures Receive(p, data) == MessageDone(p.(msg := p.msg + data, remaining := 0))
  {
    var n := |data| - 1;
    var init, last := data[..n], data[n..];
    assert data == init + last;
    ReceiveSplit(p, init, last);
    ArgsStored(p, init);
    assert p.msg + init + [last[0]] == p.msg + data;
  }

  function Total(bytes: seq<byte>): nat {
    if bytes == [] then 0 else bytes[0] + Total(bytes[1..])
  }

  /** Part of a file: the loader is fed, and the sum of the bytes is added to the checksum. */
  lemma {:induction false} FileStored(p: Proto, data: seq<byte>)
    requires p.Valid() && p.state == WaitFile && |data| < p.remaining
    ensures var (loader, ok) := Feed(p.loader, data);
            var r := Receive(p, data);
            && (r.1 == if ok then Ready else Refused)
            && r.0.loader == loader && r.0.sent == p.sent
            && (ok ==> r.0 == p.(loader := loader, remaining := p.remaining - |data|,
                                 checksum := (p.checksum + Total(data)) % 0x1_0000))
    decreases |data|
  {
    if data != [] {
      var b, rest := data[0], data[1..];
      assert data == [b] + rest;
      FeedSplit(p.loader, [b], rest);
      var (p', outcome) := FileByte(p, b);
      if outcome == Ready {
        FileStored(p', rest);
        AddModulo(p.checksum, b, Total(rest));
      }
    }
  }

  lemma AddModulo(x: nat, y: nat, z: nat)
    ensures ((x + y) % 0x1_0000 + z) % 0x1_0000 == (x + y + z) % 0x1_0000
  {
    assert x + y + z == 0x1_0000 * ((x + y) / 0x1_0000) + ((x + y) % 0x1_0000 + z);
  }

  /** What is known of a file part that ends in state `r`. */
  predicate FileEnds(p: Proto, loader: Loader, ok: bool, sum: nat, r: (Proto, Outcome)) {
    && r.1 == (if ok && loader.Done() then Ready else Refused)
    && r.0.loader == loader
    && (r.1 == Ready ==>
          r.0 == Idle(p.(loader := loader, checksum := sum % 0x1_0000, sent := p.sent + [ChecksumReply(sum % 0x1_0000)])))
    && (r.1 == Refused ==> r.0.sent == p.sent)
  }

  lemma LastFileByte(p: Proto, b: byte)
    requires p.Valid() && p.state == WaitFile && p.remaining == 1
    ensures var (loader, ok) := Feed(p.loader, [b]);
            FileEnds(p, loader, ok, p.checksum + b, Receive(p, [b]))
  {
    assert Receive(p, [b]) == FileByte(p, b);
  }

  /** A whole file: the loader decides, and the answer is the sum of all its bytes. */
  lemma {:induction false} FileComplete(p: Proto, data: seq<byte>)
    requires p.Valid() && p.state == WaitFile && |data| == p.remaining
    ensures var (loader, ok) := Feed(p.loader, data);
            FileEnds(p, loader, ok, p.checksum + Total(data), Receive(p, data))
    decreases |data|
  {
    var b, rest := data[0], data[1..];
    if rest == [] {
      assert data == [b];
      LastFileByte(p, b);
    } else {
      assert data == [b] + rest;
      FeedSplit(p.loader, [b], rest);
      var (p', outcome) := FileByte(p, b);
      if outcome == Ready {
        FileComplete(p', rest);
        AddModulo(p.checksum, b, Total(rest));
      }
    }
  }

  // ------------------------------------------------------------- the reference

  type InterfaceId = s: seq<byte> | |s| == 8 witness [0, 0, 0, 0, 0, 0, 0, 0]

  datatype Msg =
    | HardReset(magic: word)
    | CheckInterface(id: InterfaceId)
    | ReadFingerprint
    | WriteFp(fingerprint: Fingerprint)
    | WriteImage(image: seq<byte>)

  predicate Encodable(m: Msg) {
    m.WriteImage? ==> |m.image| < 0x1_0000_0000
  }

  function EncodeMsg(m: Msg): (r: seq<byte>)
    requires Encodable(m)
    ensures r != []
  {
    match m
    case HardReset(magic) => [HARD_RESET] + ToLe32(magic)
    case CheckInterface(id) => [CHECK_INTERFACE] + id
    case ReadFingerprint => [READ_FINGERPRINT]
    case WriteFp(fp) => [WRITE_FINGERPRINT] + fp
    case WriteImage(image) => [WRITE_IMAGE] + ToLe32(|image|) + image
  }

  /** What a user of the protocol sees: a fingerprint register, a tuning byte, and the flash below the config page. */
  datatype Board = Board(fingerprint: Fingerprint, tun: byte, application: seq<Word>)

  function Effect(board: Board, m: Msg): Board {
    match m
    case WriteFp(fp) => board.(fingerprint := fp)
    case WriteImage(image) =>
      board.(fingerprint := ALL_ONES,
             application := if IsImage(image) then Meaning(board.application, BlocksOf(image)) else board.application)
    case _ => board
  }

  function Replies(board: Board, m: Msg): seq<Reply> {
    match m
    case CheckInterface(id) => [InterfaceReply(id == INTERFACE_ID)]
    case ReadFingerprint => [FingerprintReply(board.fingerprint)]
    case WriteImage(image) => [ChecksumReply(Total(image) % 0x1_0000)]
    case _ => []
  }

  /** How a message ends when the flash holds out. */
  function Ending(m: Msg): Outcome {
    match m
    case HardReset(magic) => if magic == IOIO_MAGIC then Rebooted else Refused
    case WriteImage(image) => if IsImage(image) then Ready else Refused
    case _ => Ready
  }

  /** Flash operations that are enough for a message. */
  function Cost(m: Msg): nat {
    match m
    case WriteFp(_) => 10
    case WriteImage(image) => if IsImage(image) then 2 + |Operations(BlocksOf(image))| else 0
    case _ => 0
  }

  predicate Represents(p: Proto, board: Board) {
    && p.Valid() && p.state == WaitType
    && ReadBack(p.Mem()) == board.fingerprint && Tun(p.Mem()) == board.tun
    && |board.application| == |p.Mem()|
    && forall i :: 0 <= i < |p.Mem()| && 2 * i < MAX_APP_ADDRESS ==> p.Mem()[i] == board.application[i]
  }

  lemma ReceiveArgs(p: Proto, kind: byte, args: seq<byte>)
    requires p.Valid() && p.state == WaitType && kind < MESSAGE_TYPE_LIMIT && |args| == ArgSize(kind)
    ensures Receive(p, [kind] + args) == MessageDone(p.(state := WaitArgs, msg := [kind] + args, remaining := 0))
  {
    var p' := p.(state := WaitArgs, msg := [kind], remaining := ArgSize(kind));
    assert ([kind] + args)[1..] == args;
    if args == [] {
      assert [kind] + args == [kind];
    } else {
      ArgsComplete(p', args);
    }
  }

  lemma WriteFpDone(p: Proto, fp: Fingerprint)
    requires p.Valid() && p.state == WaitType
    ensures var (flash, ok) := WriteFingerprint(p.loader.flash, fp);
            Receive(p, EncodeMsg(WriteFp(fp)))
            == (p.(loader := p.loader.(flash := flash)), if ok then Ready else Refused)
  {
    ReceiveArgs(p, WRITE_FINGERPRINT, fp);
    assert ([WRITE_FINGERPRINT] + fp)[1..] == fp;
  }

  lemma WriteFpRefines(p: Proto, board: Board, fp: Fingerprint)
    requires Represents(p, board) && p.loader.flash.live >= 10
    ensures var r := Receive(p, EncodeMsg(WriteFp(fp)));
            && r.1 == Ready && Represents(r.0, Effect(board, WriteFp(fp)))
            && r.0.sent == p.sent && r.0.loader.flash.live >= p.loader.flash.live - 10
  {
    hide Receive, EncodeMsg, ReadBack, Tun, WriteFingerprint;
    WriteFpDone(p, fp);
    WriteEffect(p.loader.flash, fp);
  }

  /** Meaning looks at one word at a time. */
  lemma MeaningPointwise(a: seq<Word>, b: seq<Word>, blocks: Blocks)
    requires |a| == |b| && forall i :: 0 <= i < |a| && 2 * i < MAX_APP_ADDRESS ==> a[i] == b[i]
    ensures forall i :: 0 <= i < |a| && 2 * i < MAX_APP_ADDRESS ==> Meaning(a, blocks)[i] == Meaning(b, blocks)[i]
  {
  }

  lemma ImageHeader(p: Proto, board: Board, image: seq<byte>) returns (f: Proto)
    requires Represents(p, board) && |image| < 0x1_0000_0000 && p.loader.flash.live >= 2 && image != []
    ensures f.Valid() && f.state == WaitFile && f.remaining == |image| && f.checksum == 0 && f.sent == p.sent
    ensures Receive(p, [WRITE_IMAGE] + ToLe32(|image|)) == (f, Ready)
    ensures f.loader == Init(f.loader.flash) && f.loader.flash.live >= p.loader.flash.live - 2
    ensures Represents(Idle(f), board.(fingerprint := ALL_ONES))
  {
    var args := ToLe32(|image|);
    ReceiveArgs(p, WRITE_IMAGE, args);
    assert ([WRITE_IMAGE] + args)[1..] == args;
    EraseEffect(p.loader.flash);
    f := Receive(p, [WRITE_IMAGE] + args).0;
  }

  lemma LoadedRepresents(f: Proto, board: Board, loader: Loader, blocks: Blocks)
    requires f.Valid() && Represents(Idle(f), board) && loader.Valid()
    requires Loaded(loader, f.loader.flash, blocks) && SameOutsideApplication(f.Mem(), loader.flash.mem)
    ensures Represents(Idle(f.(loader := loader)), board.(application := Meaning(board.application, blocks)))
  {
    LoadingKeepsConfig(f.Mem(), loader.flash.mem);
    MeaningPointwise(f.Mem(), board.application, blocks);
  }

  lemma ImageBody(f: Proto, board: Board, image: seq<byte>) returns (q: Proto)
    requires f.Valid() && f.state == WaitFile && f.remaining == |image| && f.checksum == 0
    requires f.loader == Init(f.loader.flash) && IsImage(image)
    requires Represents(Idle(f), board) && f.loader.flash.live >= |Operations(BlocksOf(image))|
    ensures Receive(f, image) == (q, Ready) && q.sent == f.sent + [ChecksumReply(Total(image) % 0x1_0000)]
    ensures Represents(q, board.(application := Meaning(board.application, BlocksOf(image))))
    ensures q.loader.flash.live >= f.loader.flash.live - |Operations(BlocksOf(image))|
  {
    var loader := LoadedImage(f, board, image);
    FileComplete(f, image);
    var sum := Total(image) % 0x1_0000;
    q := Idle(f.(loader := loader, checksum := sum, sent := f.sent + [ChecksumReply(sum)]));
  }

  lemma LoadedImage(f: Proto, board: Board, image: seq<byte>) returns (loader: Loader)
    requires f.Valid() && f.loader == Init(f.loader.flash) && IsImage(image)
    requires Represents(Idle(f), board) && f.loader.flash.live >= |Operations(BlocksOf(image))|
    ensures Feed(f.loader, image) == (loader, true) && loader.Valid() && loader.Done()
    ensures Represents(Idle(f.(loader := loader)), board.(application := Meaning(board.application, BlocksOf(image))))
    ensures loader.flash.live == f.loader.flash.live - |Operations(BlocksOf(image))|
  {
    var flash := f.loader.flash;
    ImageAccepted(flash, image);
    FeedConfined(f.loader, image);
    loader := Feed(f.loader, image).0;
    LoadedRepresents(f, board, loader, BlocksOf(image));
  }

  lemma WriteImageRefines(p: Proto, board: Board, image: seq<byte>)
    requires Represents(p, board) && |image| < 0x1_0000_0000
    requires IsImage(image) && p.loader.flash.live >= 2 + |Operations(BlocksOf(image))|
    ensures var m := WriteImage(image);
            var r := Receive(p, EncodeMsg(m));
            && r.1 == Ready && Represents(r.0, Effect(board, m)) && r.0.sent == p.sent + Replies(board, m)
            && r.0.loader.flash.live >= p.loader.flash.live - Cost(m)
  {
    hide Receive, Operations, BlocksOf, Meaning, ReadBack, Tun, ToLe32;
    var f := ImageHeader(p, board, image);
    var q := ImageBody(f, board.(fingerprint := ALL_ONES), image);
    ReceiveChained(p, [WRITE_IMAGE] + ToLe32(|image|), f, image, q);
  }

  lemma BadBodyRefused(f: Proto, image: seq<byte>)
    requires f.Valid() && f.state == WaitFile && f.remaining == |image| && f.loader == Init(f.loader.flash)
    requires !IsImage(image)
    ensures Receive(f, image).1 == Refused
  {
    ImageAccepted(f.loader.flash, image);
    FileComplete(f, image);
  }

  /** A file that is not an image is refused, at the latest when its last byte has come. */
  lemma BadImageRefused(p: Proto, image: seq<byte>)
    requires p.Valid() && p.state == WaitType && |image| < 0x1_0000_0000 && !IsImage(image)
    ensures Receive(p, EncodeMsg(WriteImage(image))).1 == Refused
  {
    var args := ToLe32(|image|);
    var (f, outcome) := Receive(p, [WRITE_IMAGE] + args);
    ReceiveArgs(p, WRITE_IMAGE, args);
    assert ([WRITE_IMAGE] + args)[1..] == args;
    hide Receive, IsImage;
    if outcome == Ready { BadBodyRefused(f, image); }
    ReceiveSplit(p, [WRITE_IMAGE] + args, image);
  }

  lemma MessageRefines(p: Proto, board: Board, m: Msg)
    requires Represents(p, board) && Encodable(m) && p.loader.flash.live >= Cost(m)
    ensures var r := Receive(p, EncodeMsg(m));
            && r.1 == Ending(m)
            && (r.1 == Ready ==> && Represents(r.0, Effect(board, m)) && r.0.sent == p.sent + Replies(board, m)
                                 && r.0.loader.flash.live >= p.loader.flash.live - Cost(m))
  {
    match m
    case HardReset(magic) =>
      ReceiveArgs(p, HARD_RESET, ToLe32(magic));
      assert ([HARD_RESET] + ToLe32(magic))[1..] == ToLe32(magic);
    case CheckInterface(id) =>
      ReceiveArgs(p, CHECK_INTERFACE, id);
      assert ([CHECK_INTERFACE] + id)[1..] == id;
    case ReadFingerprint =>
      ReceiveArgs(p, READ_FINGERPRINT, []);
      assert [READ_FINGERPRINT] + [] == [READ_FINGERPRINT];
    case WriteFp(fp) =>
      WriteFpRefines(p, board, fp);
      assert p.sent + [] == p.sent;
    case WriteImage(image) =>
      if IsImage(image) { WriteImageRefines(p, board, image); } else { BadImageRefused(p, image); }
  }

  // ------------------------------------------------------------ whole sessions

  function EncodeMsgs(msgs: seq<Msg>): seq<byte>
    requires forall m :: m in msgs ==> Encodable(m)
  {
    if msgs == [] then [] else EncodeMsg(msgs[0]) + EncodeMsgs(msgs[1..])
  }

  function EffectAll(board: Board, msgs: seq<Msg>): Board
    decreases |msgs|
  {
    if msgs == [] then board else EffectAll(Effect(board, msgs[0]), msgs[1..])
  }

  function RepliesAll(board: Board, msgs: seq<Msg>): seq<Reply>
    decreases |msgs|
  {
    if msgs == [] then [] else Replies(board, msgs[0]) + RepliesAll(Effect(board, msgs[0]), msgs[1..])
  }

  function CostAll(msgs: seq<Msg>): nat {
    if msgs == [] then 0 else Cost(msgs[0]) + CostAll(msgs[1..])
  }

  function ReceiveAll(p: Proto, buffers: seq<seq<byte>>): (Proto, Outcome)
    requires p.Valid()
    decreases |buffers|
  {
    if buffers == [] then (p, Ready)
    else
      var (p', outcome) := Receive(p, buffers[0]);
      if outcome == Ready then ReceiveAll(p', buffers[1..]) else (p', outcome)
  }

  lemma {:induction false} ReceiveAllJoined(p: Proto, buffers: seq<seq<byte>>)
    requires p.Valid()
    ensures ReceiveAll(p, buffers) == Receive(p, Joined(buffers))
    decreases |buffers|
  {
    if buffers != [] {
      ReceiveSplit(p, buffers[0], Joined(buffers[1..]));
      var (p', outcome) := Receive(p, buffers[0]);
      if outcome == Ready { ReceiveAllJoined(p', buffers[1..]); }
    }
  }

  lemma MessageReady(p: Proto, board: Board, m: Msg) returns (q: Proto)
    requires Represents(p, board) && Encodable(m) && Ending(m) == Ready && p.loader.flash.live >= Cost(m)
    ensures Receive(p, EncodeMsg(m)) == (q, Ready) && Represents(q, Effect(board, m))
    ensures q.sent == p.sent + Replies(board, m) && q.loader.flash.live >= p.loader.flash.live - Cost(m)
  {
    MessageRefines(p, board, m);
    q := Receive(p, EncodeMsg(m)).0;
  }

  lemma {:induction false} MessagesRefine(p: Proto, board: Board, msgs: seq<Msg>) returns (q: Proto)
    requires Represents(p, board) && (forall m :: m in msgs ==> Encodable(m) && Ending(m) == Ready)
    requires p.loader.flash.live >= CostAll(msgs)
    ensures Receive(p, EncodeMsgs(msgs)) == (q, Ready) && Represents(q, EffectAll(board, msgs))
    ensures q.sent == p.sent + RepliesAll(board, msgs)
    decreases |msgs|
  {
    if msgs == [] {
      q := p;
      assert p.sent + [] == p.sent;
    } else {
      var m, rest := msgs[0], msgs[1..];
      var p1 := MessageReady(p, board, m);
      q := MessagesRefine(p1, Effect(board, m), rest);
      ReceiveChained(p, EncodeMsg(m), p1, EncodeMsgs(rest), q);
      ConcatAssoc(p.sent, Replies(board, m), RepliesAll(Effect(board, m), rest));
    }
  }

  lemma ReceiveChained(p: Proto, a: seq<byte>, q: Proto, b: seq<byte>, r: Proto)
    requires p.Valid() && Receive(p, a) == (q, Ready) && Receive(q, b) == (r, Ready)
    ensures Receive(p, a + b) == (r, Ready)
  {
    ReceiveSplit(p, a, b);
  }

  /**
   A session of well-formed messages, in any buffers, on a flash that holds out:
   the replies and the flash are those of a board with a plain fingerprint
   register that WRITE_IMAGE sets to all ones, and the tuning byte never changes.
   */
  lemma SessionRefines(p: Proto, board: Board, msgs: seq<Msg>, buffers: seq<seq<byte>>)
    requires Represents(p, board) && (forall m :: m in msgs ==> Encodable(m) && Ending(m) == Ready)
    requires p.loader.flash.live >= CostAll(msgs) && Joined(buffers) == EncodeMsgs(msgs)
    ensures var r := ReceiveAll(p, buffers);
            && r.1 == Ready && Represents(r.0, EffectAll(board, msgs))
            && r.0.sent == p.sent + RepliesAll(board, msgs)
            && Tun(r.0.Mem()) == Tun(p.Mem())
  {
    ReceiveAllJoined(p, buffers);
    var q := MessagesRefine(p, board, msgs);
    TunNeverChanges(board, msgs);
  }

  lemma {:induction false} TunNeverChanges(board: Board, msgs: seq<Msg>)
    ensures EffectAll(board, msgs).tun == board.tun
    decreases |msgs|
  {
    if msgs != [] { TunNeverChanges(Effect(board, msgs[0]), msgs[1..]); }
  }
}
