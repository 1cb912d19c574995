/**
 Reading a file over the Android debug bridge (libadb/adb_file.c): DATA records
 with a header of eight bytes, ended by a DONE record, in buffers that may end
 anywhere.
 */
module AdbFile {
  import opened Bytes

  const ID_DATA: seq<byte> := [0x44, 0x41, 0x54, 0x41]
  const ID_DONE: seq<byte> := [0x44, 0x4F, 0x4E, 0x45]
  const ID_FAIL: seq<byte> := [0x46, 0x41, 0x49, 0x4C]
  const HEADER_SIZE := 8

  datatype State = WaitOpen | WaitHeader | WaitData | WaitFailData | WaitClose | Failed

  /** ADB_FILE: `msg` is the part of the current header that has come in. */
  datatype File = File(state: State, readRemain: nat, msg: seq<byte>) {
    predicate Valid() {
      match state
      case WaitHeader => 0 < readRemain && |msg| + readRemain == HEADER_SIZE
      case WaitData => |msg| == HEADER_SIZE
      case _ => true
    }

    /** Between two buffers a record without anything left has been dealt with. */
    predicate Settled() {
      (state == WaitData || state == WaitFailData) ==> readRemain > 0
    }
  }

  /** The file after some data, what has been passed on, and how often the channel has been closed. */
  datatype Outcome = Outcome(file: File, passed: seq<seq<byte>>, closes: nat)

  /** Nothing but the state matters any more. */
  function Over(state: State): File {
    File(state, 0, [])
  }

  /** The channel is closed on our side, after an error or at the end of the file. */
  function Fail(): Outcome {
    Outcome(Over(Failed), [], 1)
  }

  function EndOfFile(): Outcome {
    Outcome(Over(WaitClose), [], 1)
  }

  function Id(header: seq<byte>): seq<byte>
    requires |header| == HEADER_SIZE
  {
    header[..4]
  }

  function SizeOf(header: seq<byte>): word
    requires |header| == HEADER_SIZE
  {
    Le32(header[4..])
  }

  /** A complete header: what it announces comes next. */
  function HeaderDone(header: seq<byte>): (f: File)
    requires |header| == HEADER_SIZE
    ensures f.Valid()
  {
    File(if Id(header) == ID_DATA || Id(header) == ID_DONE then WaitData
         else if Id(header) == ID_FAIL then WaitFailData else Failed, SizeOf(header), header)
  }

  function Pass(bytes: seq<byte>, o: Outcome): Outcome {
    o.(passed := [bytes] + o.passed)
  }

  /** The loop of ADBFileCallback; a record without content costs no data, so it may come at the very end. */
  function Receive(f: File, data: seq<byte>): (o: Outcome)
    requires f.Valid()
    ensures o.file.Valid() && o.file.Settled()
    decreases |data|, if f.state == WaitHeader then 0 else 1
  {
    match f.state
    case WaitOpen => Fail()
    case WaitHeader =>
      if |data| >= f.readRemain then
        var header := f.msg + data[..f.readRemain];
        var next := HeaderDone(header);
        if next.state == Failed then Fail() else Receive(next, data[f.readRemain..])
      else Outcome(f.(msg := f.msg + data, readRemain := f.readRemain - |data|), [], 0)
    case WaitData =>
      if |data| >= f.readRemain then
        if Id(f.msg) == ID_DONE then
          var end := if |data| != f.readRemain then Fail() else EndOfFile();
          if data != [] then Pass(data[..f.readRemain], end) else end
        else
          var o := Receive(File(WaitHeader, HEADER_SIZE, []), data[f.readRemain..]);
          if data != [] then Pass(data[..f.readRemain], o) else o
      else
        var o := Outcome(f.(readRemain := f.readRemain - |data|), [], 0);
        if data != [] then Pass(data, o) else o
    case WaitFailData =>
      if |data| >= f.readRemain then Fail() else Outcome(f.(readRemain := f.readRemain - |data|), [], 0)
    case WaitClose => Outcome(f, [], 0)
    case Failed => Outcome(f, [], 0)
  }

  function Join(pieces: seq<seq<byte>>): seq<byte> {
    if pieces == [] then [] else pieces[0] + Join(pieces[1..])
  }

  lemma {:induction false} JoinAppend(a: seq<seq<byte>>, b: seq<seq<byte>>)
    ensures Join(a + b) == Join(a) + Join(b)
  {
    if a == [] {
      assert a + b == b;
    } else {
      assert (a + b)[1..] == a[1..] + b;
      JoinAppend(a[1..], b);
    }
  }

  lemma {:induction false} JoinPass(bytes: seq<byte>, o: Outcome)
    ensures Join(Pass(bytes, o).passed) == bytes + Join(o.passed)
  {
    assert ([bytes] + o.passed)[1..] == o.passed;
  }

  predicate Reading(f: File) {
    f.state == WaitHeader || f.state == WaitData || f.state == WaitFailData
  }

  /** What two buffers do one after the other. */
  predicate SameAs(o: Outcome, p: Outcome, q: Outcome) {
    o.file == q.file && Join(o.passed) == Join(p.passed) + Join(q.passed) && o.closes == p.closes + q.closes
  }

  lemma {:induction false} PassBoth(bytes: seq<byte>, o: Outcome, p: Outcome, q: Outcome)
    requires SameAs(o, p, q)
    ensures SameAs(Pass(bytes, o), Pass(bytes, p), q)
  {
    JoinPass(bytes, o);
    JoinPass(bytes, p);
    ConcatAssoc(bytes, Join(p.passed), Join(q.passed));
  }

  /** While the file is being read, two buffers are as good as one. */
  lemma {:induction false} ReceiveSplit(f: File, a: seq<byte>, b: seq<byte>)
    requires f.Valid() && Reading(Receive(f, a).file)
    ensures SameAs(Receive(f, a + b), Receive(f, a), Receive(Receive(f, a).file, b))
    decreases |a|, if f.state == WaitHeader then 0 else 1, 1
  {
    if f.state == WaitHeader {
      HeaderSplit(f, a, b);
    } else if f.state == WaitData {
      DataSplit(f, a, b);
    } else {
      assert Join([]) + Join(Receive(Receive(f, a).file, b).passed) == Join(Receive(Receive(f, a).file, b).passed);
    }
  }

  lemma {:induction false} HeaderSplit(f: File, a: seq<byte>, b: seq<byte>)
    requires f.Valid() && f.state == WaitHeader && Reading(Receive(f, a).file)
    ensures SameAs(Receive(f, a + b), Receive(f, a), Receive(Receive(f, a).file, b))
    decreases |a|, 0, 0
  {
    var n := f.readRemain;
    if |a| >= n {
      assert (a + b)[..n] == a[..n] && (a + b)[n..] == a[n..] + b;
      ReceiveSplit(HeaderDone(f.msg + a[..n]), a[n..], b);
    } else {
      HeaderCut(f, a, b);
    }
  }

  /** A buffer that ends inside a header. */
  lemma {:induction false} HeaderCut(f: File, a: seq<byte>, b: seq<byte>)
    requires f.Valid() && f.state == WaitHeader && |a| < f.readRemain
    ensures SameAs(Receive(f, a + b), Receive(f, a), Receive(Receive(f, a).file, b))
  {
    var n, g := f.readRemain, f.(msg := f.msg + a, readRemain := f.readRemain - |a|);
    assert Receive(f, a) == Outcome(g, [], 0);
    if |a + b| >= n {
      assert f.msg + a + b[..n - |a|] == f.msg + (a + b)[..n] && (a + b)[n..] == b[n - |a|..];
      assert Receive(f, a + b) == Receive(g, b);
    } else {
      assert f.msg + a + b == f.msg + (a + b);
      assert Receive(f, a + b) == Receive(g, b);
    }
    hide Receive;
    assert Join([]) + Join(Receive(g, b).passed) == Join(Receive(g, b).passed);
  }

  lemma {:induction false} DataSplit(f: File, a: seq<byte>, b: seq<byte>)
    requires f.Valid() && f.state == WaitData && Reading(Receive(f, a).file)
    ensures SameAs(Receive(f, a + b), Receive(f, a), Receive(Receive(f, a).file, b))
    decreases |a|, 1, 0
  {
    if |a| >= f.readRemain {
      var h := File(WaitHeader, HEADER_SIZE, []);
      ReceiveSplit(h, a[f.readRemain..], b);
      RecordThen(f, a, b);
    } else {
      DataCut(f, a, b);
    }
  }

  /** The first buffer holds the whole rest of a record. */
  lemma {:induction false} RecordThen(f: File, a: seq<byte>, b: seq<byte>)
    requires f.Valid() && f.state == WaitData && |a| >= f.readRemain && Reading(Receive(f, a).file)
    requires var h, rest := File(WaitHeader, HEADER_SIZE, []), a[f.readRemain..];
             SameAs(Receive(h, rest + b), Receive(h, rest), Receive(Receive(h, rest).file, b))
    ensures SameAs(Receive(f, a + b), Receive(f, a), Receive(Receive(f, a).file, b))
  {
    var n, h := f.readRemain, File(WaitHeader, HEADER_SIZE, []);
    NotDone(f, a);
    BehindRecord(a, b, n);
    WholeRecord(f, a);
    WholeRecord(f, a + b);
    var o, p, q := Receive(h, a[n..] + b), Receive(h, a[n..]), Receive(Receive(h, a[n..]).file, b);
    hide Receive, Id, SameAs, Pass, Join, Reading;
    if a != [] {
      PassBoth(a[..n], o, p, q);
    } else if b != [] {
      EmptyFirst(o, p, q, a[..n]);
    }
  }

  lemma BehindRecord(a: seq<byte>, b: seq<byte>, n: nat)
    requires n <= |a|
    ensures (a + b)[..n] == a[..n] && (a + b)[n..] == a[n..] + b
  {
  }

  lemma {:induction false} NotDone(f: File, data: seq<byte>)
    requires f.Valid() && f.state == WaitData && |data| >= f.readRemain && Reading(Receive(f, data).file)
    ensures Id(f.msg) != ID_DONE
  {
  }

  lemma {:induction false} WholeRecord(f: File, data: seq<byte>)
    requires f.Valid() && f.state == WaitData && |data| >= f.readRemain && Id(f.msg) != ID_DONE
    ensures var o := Receive(File(WaitHeader, HEADER_SIZE, []), data[f.readRemain..]);
            Receive(f, data) == if data != [] then Pass(data[..f.readRemain], o) else o
  {
  }

  lemma {:induction false} EmptyFirst(o: Outcome, p: Outcome, q: Outcome, bytes: seq<byte>)
    requires SameAs(o, p, q) && bytes == []
    ensures SameAs(Pass(bytes, o), p, q)
  {
    JoinPass(bytes, o);
  }

  /** A buffer that ends inside the content of a record. */
  lemma {:induction false} DataCut(f: File, a: seq<byte>, b: seq<byte>)
    requires f.Valid() && f.state == WaitData && |a| < f.readRemain
    ensures SameAs(Receive(f, a + b), Receive(f, a), Receive(Receive(f, a).file, b))
  {
    var g := f.(readRemain := f.readRemain - |a|);
    if a == [] {
      assert a + b == b && f == g;
      assert Join([]) + Join(Receive(g, b).passed) == Join(Receive(g, b).passed);
    } else if |a| + |b| >= f.readRemain {
      assert Receive(f, a) == Outcome(g, [a], 0);
      CutEnds(f, g, a, b);
    } else {
      CutMiddle(f, g, a, b);
    }
  }

  lemma {:induction false} CutMiddle(f: File, g: File, a: seq<byte>, b: seq<byte>)
    requires f.Valid() && f.state == WaitData && a != [] && |a| + |b| < f.readRemain
    requires g == f.(readRemain := f.readRemain - |a|)
    ensures Receive(f, a) == Outcome(g, [a], 0)
    ensures SameAs(Receive(f, a + b), Outcome(g, [a], 0), Receive(g, b))
  {
    JoinOne(a);
    JoinOne(a + b);
    assert b == [] ==> a + b == a && a + [] == a;
    if b != [] { JoinOne(b); }
  }

  lemma {:induction false} JoinOne(a: seq<byte>)
    ensures Join([a]) == a
  {
    assert [a][1..] == [] && a + [] == a;
  }

  lemma {:induction false} CutEnds(f: File, g: File, a: seq<byte>, b: seq<byte>)
    requires f.Valid() && f.state == WaitData && a != [] && |a| < f.readRemain <= |a| + |b|
    requires g == f.(readRemain := f.readRemain - |a|)
    ensures SameAs(Receive(f, a + b), Outcome(g, [a], 0), Receive(g, b))
  {
    var n, m := f.readRemain, g.readRemain;
    assert (a + b)[..n] == a + b[..m] && (a + b)[n..] == b[m..];
    assert [a][1..] == [] && Join([a]) == a + Join([]) == a;
    if Id(f.msg) == ID_DONE {
      var end := if |b| != m then Fail() else EndOfFile();
      JoinPass(a + b[..m], end);
      JoinPass(b[..m], end);
      assert Join(end.passed) == [] && a + b[..m] + [] == a + (b[..m] + []);
    } else {
      var o := Receive(File(WaitHeader, HEADER_SIZE, []), b[m..]);
      JoinPass(a + b[..m], o);
      JoinPass(b[..m], o);
      ConcatAssoc(a, b[..m], Join(o.passed));
    }
  }

  // ------------------------------------------------------------------- files

  type Payload = s: seq<byte> | |s| < 0x1_0000_0000

  function Header(id: seq<byte>, size: word): (h: seq<byte>)
    requires |id| == 4
    ensures |h| == HEADER_SIZE
  {
    id + ToLe32(size)
  }

  function Records(payloads: seq<Payload>): seq<byte> {
    if payloads == [] then [] else Header(ID_DATA, |payloads[0]|) + payloads[0] + Records(payloads[1..])
  }

  function Done(): seq<byte> {
    Header(ID_DONE, 0)
  }

  function Start(): File {
    File(WaitHeader, HEADER_SIZE, [])
  }

  lemma {:induction false} HeaderSays(id: seq<byte>, size: word)
    requires |id| == 4
    ensures Id(Header(id, size)) == id && SizeOf(Header(id, size)) == size
  {
    assert Header(id, size)[4..] == ToLe32(size);
  }

  lemma {:induction false} RecordReceived(payload: Payload)
    ensures var o := Receive(Start(), Header(ID_DATA, |payload|) + payload);
            o.file == Start() && Join(o.passed) == payload && o.closes == 0
  {
    var h := Header(ID_DATA, |payload|);
    HeaderSays(ID_DATA, |payload|);
    var data := h + payload;
    assert [] + data[..8] == h && data[8..] == payload;
    var f := HeaderDone(h);
    assert f == File(WaitData, |payload|, h);
    assert payload[|payload|..] == [] && payload[..|payload|] == payload;
    assert Receive(Start(), []) == Outcome(Start(), [], 0);
    assert Receive(Start(), data) == Receive(f, payload);
    if payload == [] {
    } else {
      JoinPass(payload, Outcome(Start(), [], 0));
    }
  }

  lemma {:induction false} DoneReceived()
    ensures Receive(Start(), Done()) == EndOfFile()
  {
    var h := Done();
    HeaderSays(ID_DONE, 0);
    assert [] + h[..8] == h && h[8..] == [];
    assert Receive(Start(), h) == Receive(HeaderDone(h), []);
  }

  /** A whole file in one buffer. */
  lemma {:induction false} FileReceived(payloads: seq<Payload>)
    ensures var o := Receive(Start(), Records(payloads) + Done());
            o.file == Over(WaitClose) && Join(o.passed) == Join(payloads) && o.closes == 1
  {
    if payloads == [] {
      DoneReceived();
      assert [] + Done() == Done();
    } else {
      var first, rest := Header(ID_DATA, |payloads[0]|) + payloads[0], Records(payloads[1..]) + Done();
      RecordReceived(payloads[0]);
      FileReceived(payloads[1..]);
      ReceiveSplit(Start(), first, rest);
      hide Receive, Header;
      ConcatAssoc(first, Records(payloads[1..]), Done());
    }
  }

  function ReceiveAll(f: File, buffers: seq<seq<byte>>): (o: Outcome)
    requires f.Valid()
    ensures o.file.Valid()
    decreases |buffers|
  {
    if buffers == [] then Outcome(f, [], 0)
    else
      var o := Receive(f, buffers[0]);
      var p := ReceiveAll(o.file, buffers[1..]);
      Outcome(p.file, o.passed + p.passed, o.closes + p.closes)
  }

  /** Once it is over, a file is not read any further, and more data in the same buffer is an error. */
  lemma {:induction false} OverStays(f: File, a: seq<byte>, b: seq<byte>)
    requires f.Valid() && f.state != WaitClose && f.state != WaitOpen && !Reading(Receive(f, a).file) && b != []
    ensures Receive(f, a + b).file.state != WaitClose
    decreases |a|, if f.state == WaitHeader then 0 else 1
  {
    var n := f.readRemain;
    if |a| >= n { assert (a + b)[..n] == a[..n] && (a + b)[n..] == a[n..] + b; }
    if f.state == WaitHeader && |a| >= n {
      if HeaderDone(f.msg + a[..n]).state != Failed { OverStays(HeaderDone(f.msg + a[..n]), a[n..], b); }
    } else if f.state == WaitData && |a| >= n && Id(f.msg) != ID_DONE {
      OverStays(Start(), a[n..], b);
    }
  }

  /** An error is found no later when more data comes in the same buffer, and nothing is passed on behind it. */
  lemma {:induction false} FailureStays(f: File, a: seq<byte>, b: seq<byte>)
    requires f.Valid() && Receive(f, a).file.state == Failed
    ensures Receive(f, a + b) == Receive(f, a)
    decreases |a|, if f.state == WaitHeader then 0 else 1
  {
    var n := f.readRemain;
    if |a| >= n { assert (a + b)[..n] == a[..n] && (a + b)[n..] == a[n..] + b; }
    if f.state == WaitHeader && |a| >= n {
      if HeaderDone(f.msg + a[..n]).state != Failed { FailureStays(HeaderDone(f.msg + a[..n]), a[n..], b); }
    } else if f.state == WaitData && |a| >= n && Id(f.msg) != ID_DONE {
      FailureStays(Start(), a[n..], b);
    }
  }

  /** Once the channel is closed on our side, buffers are ignored. */
  lemma {:induction false} RestIgnored(f: File, buffers: seq<seq<byte>>)
    requires f.state == WaitClose || f.state == Failed
    ensures ReceiveAll(f, buffers) == Outcome(f, [], 0)
    decreases |buffers|
  {
    if buffers != [] { RestIgnored(f, buffers[1..]); }
  }

  /** Some proper beginning of the stream is a whole file already. */
  ghost predicate EndsEarly(f: File, stream: seq<byte>)
    requires f.Valid()
  {
    exists k :: 0 < k < |stream| && Receive(f, stream[..k]).file.state == WaitClose
  }

  /** The same file in the end, the same content passed on, and the channel closed as often. */
  predicate SameResult(o: Outcome, p: Outcome) {
    o.file == p.file && Join(o.passed) == Join(p.passed) && o.closes == p.closes
  }

  /** Every way of cutting the stream into buffers gives what the stream gives in one buffer. */
  ghost predicate CutsAgree(f: File, stream: seq<byte>)
    requires f.Valid()
  {
    forall buffers :: Join(buffers) == stream ==> SameResult(ReceiveAll(f, buffers), Receive(f, stream))
  }

  lemma EndsLater(f: File, a: seq<byte>, b: seq<byte>)
    requires f.Valid() && Reading(Receive(f, a).file) && !EndsEarly(f, a + b)
    ensures !EndsEarly(Receive(f, a).file, b)
  {
    var g := Receive(f, a).file;
    forall k | 0 < k < |b| ensures Receive(g, b[..k]).file.state != WaitClose {
      assert (a + b)[..|a| + k] == a + b[..k];
      ReceiveSplit(f, a, b[..k]);
    }
  }

  lemma NothingBehind(f: File, a: seq<byte>, b: seq<byte>)
    requires f.Valid() && !EndsEarly(f, a + b) && a != [] && Receive(f, a).file.state == WaitClose
    ensures b == []
  {
    assert (a + b)[..|a|] == a;
  }

  lemma {:induction false} AllBuffers(f: File, buffers: seq<seq<byte>>)
    requires f.Valid() && f.Settled() && Reading(f) && !EndsEarly(f, Join(buffers))
    ensures SameResult(ReceiveAll(f, buffers), Receive(f, Join(buffers)))
    decreases |buffers|
  {
    if buffers != [] {
      var a, b := buffers[0], Join(buffers[1..]);
      var o := Receive(f, a);
      if Reading(o.file) {
        EndsLater(f, a, b);
        ReceiveSplit(f, a, b);
        hide Receive, EndsEarly;
        AllBuffers(o.file, buffers[1..]);
        JoinAppend(o.passed, ReceiveAll(o.file, buffers[1..]).passed);
      } else {
        StatesBehind(f, a);
        RestIgnored(o.file, buffers[1..]);
        assert o.passed + [] == o.passed;
        if o.file.state == Failed {
          FailureStays(f, a, b);
        } else {
          NothingBehind(f, a, b);
          assert a + b == a;
        }
      }
    }
  }

  /** A file that is being read is not given back unopened, and an empty buffer does not end it. */
  lemma {:induction false} StatesBehind(f: File, a: seq<byte>)
    requires f.Valid() && Reading(f)
    ensures Receive(f, a).file.state != WaitOpen
    ensures f.Settled() && a == [] ==> Reading(Receive(f, a).file)
    decreases |a|, if f.state == WaitHeader then 0 else 1
  {
    var n := f.readRemain;
    if f.state == WaitHeader && |a| >= n {
      var next := HeaderDone(f.msg + a[..n]);
      if next.state != Failed { StatesBehind(next, a[n..]); }
    } else if f.state == WaitData && |a| >= n && Id(f.msg) != ID_DONE {
      StatesBehind(Start(), a[n..]);
    }
  }

  /**
   However a stream is cut into buffers, complete or not, well-formed or not, the
   content passed on, the end and the number of closes are the same: exactly when
   there is nothing behind the end of the file.
   */
  lemma CutsDoNotMatter(f: File, stream: seq<byte>)
    requires f.Valid() && f.Settled() && Reading(f)
    ensures CutsAgree(f, stream) <==> !EndsEarly(f, stream)
  {
    if EndsEarly(f, stream) {
      var k :| 0 < k < |stream| && Receive(f, stream[..k]).file.state == WaitClose;
      CutAtTheEnd(f, stream, k);
    } else {
      forall buffers | Join(buffers) == stream ensures SameResult(ReceiveAll(f, buffers), Receive(f, stream)) {
        AllBuffers(f, buffers);
      }
    }
  }

  /** A cut right behind the end hides the error that the same data give in one buffer. */
  lemma {:induction false} CutAtTheEnd(f: File, stream: seq<byte>, k: nat)
    requires f.Valid() && Reading(f) && 0 < k < |stream| && Receive(f, stream[..k]).file.state == WaitClose
    ensures var buffers := [stream[..k], stream[k..]];
            Join(buffers) == stream && ReceiveAll(f, buffers).file.state == WaitClose
    ensures Receive(f, stream).file.state != WaitClose
  {
    var a, b := stream[..k], stream[k..];
    var buffers := [a, b];
    assert buffers[1..] == [b];
    JoinOne(b);
    assert Join(buffers) == a + b == stream;
    RestIgnored(Receive(f, a).file, [b]);
    assert ReceiveAll(f, buffers).file == ReceiveAll(Receive(f, a).file, [b]).file;
    OverStays(f, a, b);
  }

  /** What the client is told when the channel is closed: whether the end of the file was reached. */
  function ClosedCleanly(f: File, clean: bool): bool {
    f.state == WaitClose && clean
  }

  /** A stream that ends well in one buffer has nothing behind its end. */
  lemma {:induction false} WholeFile(f: File, stream: seq<byte>)
    requires f.Valid() && Reading(f) && Receive(f, stream).file.state == WaitClose
    ensures !EndsEarly(f, stream)
  {
    forall k | 0 < k < |stream| ensures Receive(f, stream[..k]).file.state != WaitClose {
      assert stream == stream[..k] + stream[k..];
      if Receive(f, stream[..k]).file.state == WaitClose { OverStays(f, stream[..k], stream[k..]); }
    }
  }

  /**
   For every way of cutting a file into buffers, the content passed on is the file's,
   and success is reported exactly when all of it has come in and the channel is
   closed cleanly; before that only a prefix has been passed on.
   */
  lemma {:induction false} FileTransferred(payloads: seq<Payload>, buffers: seq<seq<byte>>, n: nat, clean: bool)
    requires Join(buffers) == Records(payloads) + Done() && n <= |buffers|
    requires forall i :: 0 <= i < |buffers| ==> buffers[i] != []
    ensures var o := ReceiveAll(Start(), buffers[..n]);
            && Join(o.passed) <= Join(payloads)
            && (n == |buffers| ==> Join(o.passed) == Join(payloads))
            && o.closes == (if n == |buffers| then 1 else 0)
            && (ClosedCleanly(o.file, clean) <==> n == |buffers| && clean)
  {
    FileReceived(payloads);
    WholeFile(Start(), Join(buffers));
    AllBuffers(Start(), buffers);
    if n == |buffers| {
      assert buffers[..n] == buffers;
    } else {
      ReadingSoFar(Start(), buffers, n);
      PrefixPassed(Start(), buffers, n);
    }
  }

  /** Before the last buffer the file is still being read. */
  lemma {:induction false} ReadingSoFar(f: File, buffers: seq<seq<byte>>, n: nat)
    requires f.Valid() && f.Settled() && Reading(f) && n < |buffers|
    requires forall i :: 0 <= i < |buffers| ==> buffers[i] != []
    requires Receive(f, Join(buffers)).file.state == WaitClose
    ensures var o := ReceiveAll(f, buffers[..n]); Reading(o.file) && o.closes == 0
    decreases n
  {
    if n > 0 {
      var a, b := buffers[0], Join(buffers[1..]);
      assert buffers[1..][0] == buffers[1] && b != [];
      if !Reading(Receive(f, a).file) {
        OverStays(f, a, b);
        assert false;
      }
      ReceiveSplit(f, a, b);
      NotClosed(f, a);
      ReadingSoFar(Receive(f, a).file, buffers[1..], n - 1);
      assert buffers[..n][1..] == buffers[1..][..n - 1];
    }
  }

  lemma {:induction false} NotClosed(f: File, a: seq<byte>)
    requires f.Valid() && Reading(Receive(f, a).file)
    ensures Receive(f, a).closes == 0
    decreases |a|, if f.state == WaitHeader then 0 else 1
  {
    if f.state == WaitHeader && |a| >= f.readRemain {
      NotClosed(HeaderDone(f.msg + a[..f.readRemain]), a[f.readRemain..]);
    } else if f.state == WaitData && |a| >= f.readRemain {
      NotClosed(Start(), a[f.readRemain..]);
    }
  }

  lemma {:induction false} PrefixPassed(f: File, buffers: seq<seq<byte>>, n: nat)
    requires f.Valid() && n <= |buffers|
    ensures Join(ReceiveAll(f, buffers[..n]).passed) <= Join(ReceiveAll(f, buffers).passed)
    decreases n
  {
    if n > 0 {
      var o := Receive(f, buffers[0]);
      assert buffers[..n][1..] == buffers[1..][..n - 1];
      PrefixPassed(o.file, buffers[1..], n - 1);
      JoinAppend(o.passed, ReceiveAll(o.file, buffers[1..]).passed);
      JoinAppend(o.passed, ReceiveAll(o.file, buffers[1..][..n - 1]).passed);
    }
  }

  /** Data behind the end of the file is an error in the same buffer, and ignored in the next. */
  lemma {:induction false} DataBehindTheEnd(more: seq<byte>)
    requires more != []
    ensures Receive(Start(), Done() + more).file == Over(Failed)
    ensures ReceiveAll(Start(), [Done(), more]).file == Over(WaitClose)
  {
    var h := Done();
    HeaderSays(ID_DONE, 0);
    assert [] + (h + more)[..8] == h && (h + more)[8..] == more;
    assert Receive(Start(), h + more) == Receive(HeaderDone(h), more);
    DoneReceived();
    assert [h, more][1..] == [more] && [more][1..] == [];
    assert ReceiveAll(Over(WaitClose), [more]).file == Receive(Over(WaitClose), more).file;
    assert ReceiveAll(Start(), [h, more]).file == ReceiveAll(Receive(Start(), h).file, [more]).file;
  }

  // ------------------------------------------------------------ every stream

  datatype Ending = Unfinished | Success | Failure

  function Letters(s: string): (b: seq<byte>)
    requires forall i :: 0 <= i < |s| ==> s[i] < '\U{0100}'
    ensures |b| == |s|
  {
    seq(|s|, i requires 0 <= i < |s| => s[i] as int)
  }

  /** How a stream ends and what its content is, record by record. */
  function Meaning(stream: seq<byte>): (Ending, seq<byte>)
    decreases |stream|
  {
    if |stream| < 8 then (Unfinished, [])
    else
      var id, size, body := stream[..4], Le32(stream[4..8]), stream[8..];
      if id == Letters("DATA") then
        if |body| < size then (Unfinished, body)
        else
          var (ending, content) := Meaning(body[size..]);
          (ending, body[..size] + content)
      else if id == Letters("DONE") then
        if |body| < size then (Unfinished, body)
        else (if |body| == size then Success else Failure, body[..size])
      else if id == Letters("FAIL") then
        (if |body| < size then Unfinished else Failure, [])
      else (Failure, [])
  }

  predicate Ends(o: Outcome, meaning: (Ending, seq<byte>)) {
    && Join(o.passed) == meaning.1
    && (match meaning.0
        case Unfinished => Reading(o.file) && o.closes == 0
        case Success => o.file == Over(WaitClose) && o.closes == 1
        case Failure => o.file == Over(Failed) && o.closes == 1)
  }

  lemma IdsSpelled()
    ensures ID_DATA == Letters("DATA") && ID_DONE == Letters("DONE") && ID_FAIL == Letters("FAIL")
  {
  }

  lemma HeaderTaken(stream: seq<byte>)
    requires |stream| >= 8
    ensures var f := HeaderDone(stream[..8]);
            && f.readRemain == Le32(stream[4..8]) && f.msg == stream[..8] && Id(f.msg) == stream[..4]
            && Receive(Start(), stream) == if f.state == Failed then Fail() else Receive(f, stream[8..])
  {
    assert [] + stream[..8] == stream[..8] && stream[..8][4..] == stream[4..8] && stream[..8][..4] == stream[..4];
  }

  /** A DATA record, whole or not. */
  lemma DataMeans(f: File, body: seq<byte>)
    requires f.Valid() && f.state == WaitData && Id(f.msg) != ID_DONE
    requires |body| >= f.readRemain ==> Ends(Receive(Start(), body[f.readRemain..]), Meaning(body[f.readRemain..]))
    ensures Ends(Receive(f, body),
                 if |body| < f.readRemain then (Unfinished, body)
                 else (Meaning(body[f.readRemain..]).0, body[..f.readRemain] + Meaning(body[f.readRemain..]).1))
  {
    var n := f.readRemain;
    if |body| >= n {
      WholeRecord(f, body);
      hide Receive, Meaning;
      JoinPass(body[..n], Receive(Start(), body[n..]));
      if body == [] { assert body[..n] + Meaning(body[n..]).1 == Meaning(body[n..]).1; }
    } else {
      if body != [] { JoinOne(body); }
    }
  }

  lemma DoneMeans(f: File, body: seq<byte>)
    requires f.Valid() && f.state == WaitData && Id(f.msg) == ID_DONE
    ensures Ends(Receive(f, body),
                 if |body| < f.readRemain then (Unfinished, body)
                 else (if |body| == f.readRemain then Success else Failure, body[..f.readRemain]))
  {
    JoinOne(body);
    if |body| >= f.readRemain { JoinOne(body[..f.readRemain]); }
  }

  /**
   What any stream whatever does: DATA is passed on, DONE ends the file if nothing is
   behind it, FAIL and everything else are errors, and the channel is closed once.
   */
  lemma {:induction false} StreamMeans(stream: seq<byte>)
    ensures Ends(Receive(Start(), stream), Meaning(stream))
    decreases |stream|
  {
    if |stream| >= 8 {
      HeaderTaken(stream);
      IdsSpelled();
      var f, body := HeaderDone(stream[..8]), stream[8..];
      hide Letters, Receive;
      if Id(f.msg) == ID_DATA {
        if |body| >= f.readRemain { StreamMeans(body[f.readRemain..]); }
        DataMeans(f, body);
      } else if Id(f.msg) == ID_DONE {
        DoneMeans(f, body);
      } else if Id(f.msg) == ID_FAIL {
        FailMeans(f, body);
      }
    }
  }

  lemma FailMeans(f: File, body: seq<byte>)
    requires f.Valid() && f.state == WaitFailData
    ensures Ends(Receive(f, body), (if |body| < f.readRemain then Unfinished else Failure, []))
  {
  }

  /** In buffers the same, unless the end of the file comes before the end of the stream. */
  lemma BuffersMean(buffers: seq<seq<byte>>)
    requires !EndsEarly(Start(), Join(buffers))
    ensures Ends(ReceiveAll(Start(), buffers), Meaning(Join(buffers)))
  {
    StreamMeans(Join(buffers));
    hide Receive, ReceiveAll, Meaning, EndsEarly;
    AllBuffers(Start(), buffers);
  }

  /** Data before the channel is open is an error. */
  lemma NotOpenYet(data: seq<byte>)
    ensures Receive(File(WaitOpen, 0, []), data) == Outcome(Over(Failed), [], 1)
  {
  }
}
