/**
 The state of libadb/adb_file.c and its callback for data, one method for each
 state that the loop can be in, proved against module AdbFile.
 */
module AdbFileState {
  import opened Bytes
  import opened AdbFile

  class Reader {
    var state: State
    var readRemain: nat
    const msg: array<byte>

    /** What has been passed to the client's callback, and how often the channel has been closed. */
    ghost var passed: seq<seq<byte>>
    ghost var closes: nat

    ghost predicate Valid()
      reads this
    {
      msg.Length == HEADER_SIZE && (state == WaitHeader ==> 0 < readRemain <= HEADER_SIZE)
    }

    ghost function Abs(): (f: File)
      requires Valid()
      reads this, msg
      ensures f.Valid()
    {
      if state == WaitHeader then File(state, readRemain, msg[..HEADER_SIZE - readRemain])
      else if state == WaitData || state == WaitFailData then File(state, readRemain, msg[..])
      else Over(state)
    }

    /** When the request for the file has been sent. */
    constructor ()
      ensures Valid() && fresh(msg) && Abs() == Start() && passed == [] && closes == 0
    {
      msg := new byte[HEADER_SIZE](_ => 0);
      state, readRemain, passed, closes := WaitHeader, HEADER_SIZE, [], 0;
    }

    method CloseAndError()
      requires msg.Length == HEADER_SIZE
      modifies this`state, this`closes
      ensures Valid() && Abs() == Over(Failed) && closes == old(closes) + 1
    {
      closes := closes + 1;
      state := Failed;
    }

    /** The loop has come to its end with this outcome. */
    twostate predicate Ended(o: Outcome)
      reads this, msg
    {
      Valid() && Abs() == o.file && passed == old(passed) + o.passed && closes == old(closes) + o.closes
    }

    /** The bytes of a header, as many as there are. */
    method TakeHeader(data: seq<byte>) returns (n: nat)
      requires Valid() && state == WaitHeader
      modifies msg
      ensures n == if |data| >= readRemain then readRemain else |data|
      ensures msg[..HEADER_SIZE - readRemain + n] == old(msg[..HEADER_SIZE - readRemain]) + data[..n]
    {
      n := if |data| >= readRemain then readRemain else |data|;
      forall i | 0 <= i < n { msg[HEADER_SIZE - readRemain + i] := data[i]; }
    }

    /** A header: `go` when it is complete and the loop goes on with the data from n on. */
    method HeaderTurn(data: seq<byte>) returns (n: nat, go: bool)
      requires Valid() && state == WaitHeader
      modifies this, msg
      ensures Valid() && n <= |data|
      ensures go ==> n == old(readRemain) && state != WaitHeader && passed == old(passed) && closes == old(closes)
      ensures go ==> Receive(old(Abs()), data) == Receive(Abs(), data[n..])
      ensures !go ==> Ended(Receive(old(Abs()), data))
    {
      n := TakeHeader(data);
      assert passed + [] == passed;
      if n < readRemain {
        readRemain := readRemain - n;
        assert data[..n] == data;
        return n, false;
      }
      assert msg[..HEADER_SIZE] == msg[..];
      ghost var next := HeaderDone(msg[..]);
      readRemain := SizeOf(msg[..]);
      if Id(msg[..]) == ID_DATA || Id(msg[..]) == ID_DONE {
        state := WaitData;
      } else if Id(msg[..]) == ID_FAIL {
        state := WaitFailData;
      } else {
        CloseAndError();
        return n, false;
      }
      assert Abs() == next;
      return n, true;
    }

    method PassOn(data: seq<byte>)
      modifies this`passed
      ensures passed == old(passed) + if data == [] then [] else [data]
    {
      if data != [] { passed := passed + [data]; }
    }

    /** The content of a record that ends in this buffer. */
    method RecordTurn(data: seq<byte>) returns (go: bool)
      requires Valid() && state == WaitData && |data| >= readRemain
      modifies this
      ensures Valid()
      ensures passed == old(passed) + if data == [] then [] else [data[..old(readRemain)]]
      ensures go <==> Id(msg[..]) != ID_DONE
      ensures go ==> Abs() == Start() && closes == old(closes)
      ensures !go ==> Ended(Receive(old(Abs()), data))
    {
      var n := readRemain;
      if data != [] { passed := passed + [data[..n]]; }
      if Id(msg[..]) == ID_DONE {
        if |data| != n {
          CloseAndError();
        } else {
          state, closes := WaitClose, closes + 1;
        }
        return false;
      }
      readRemain, state := HEADER_SIZE, WaitHeader;
      assert msg[..0] == [];
      return true;
    }

    /** Content that does not end in this buffer. */
    method PartTurn(data: seq<byte>)
      requires Valid() && state == WaitData && |data| < readRemain
      modifies this`readRemain, this`passed
      ensures Ended(Receive(old(Abs()), data))
    {
      PassOn(data);
      readRemain := readRemain - |data|;
    }

    /** The reason of a failure, and the states that ignore data. */
    method OtherTurn(data: seq<byte>)
      requires Valid() && state != WaitHeader && state != WaitData
      modifies this
      ensures Ended(Receive(old(Abs()), data))
    {
      assert passed + [] == passed;
      if state == WaitOpen {
        CloseAndError();
      } else if state == WaitFailData {
        if |data| >= readRemain {
          CloseAndError();
        } else {
          readRemain := readRemain - |data|;
        }
      }
    }

    /** What is left to do for the data from here on leads to the outcome of the whole. */
    twostate predicate Owes(rest: seq<byte>, goal: Outcome)
      reads this, msg
    {
      Valid()
      && var o := Receive(Abs(), rest);
         o.file == goal.file && passed + o.passed == old(passed) + goal.passed && closes + o.closes == old(closes) + goal.closes
    }

    lemma {:induction false} PassedFirst(before: seq<seq<byte>>, first: seq<seq<byte>>, o: Outcome, p: Outcome)
      requires o.passed == first + p.passed
      ensures before + o.passed == before + first + p.passed
    {
    }

    /** ADBFileCallback, for data. */
    method ADBFileCallback(data: seq<byte>)
      requires Valid()
      modifies this, msg
      ensures Ended(Receive(old(Abs()), data))
    {
      hide Receive, Id, SizeOf;
      ghost var goal := Receive(Abs(), data);
      var rest := data;
      while true
        invariant Owes(rest, goal)
        decreases |rest|, if state == WaitHeader then 0 else 1
      {
        ghost var before, f := passed, Abs();
        if state == WaitHeader {
          var n, go := HeaderTurn(rest);
          if !go { return; }
          rest := rest[n..];
        } else if state == WaitData && |rest| >= readRemain {
          var n := readRemain;
          if Id(msg[..]) != ID_DONE { WholeRecord(f, rest); }
          var go := RecordTurn(rest);
          if !go { return; }
          ghost var o := Receive(Start(), rest[n..]);
          PassedFirst(before, if rest == [] then [] else [rest[..n]], Receive(f, rest), o);
          rest := rest[n..];
        } else if state == WaitData {
          PartTurn(rest);
          return;
        } else {
          OtherTurn(rest);
          return;
        }
      }
    }
  }
}
