/**
 Authentication as the bootloader runs it (bootloader/main.c): the packages file is
 fed to the parser buffer by buffer, and closed at the first verdict. What comes in
 the same buffer behind that verdict still counts, what comes later does not.
 */
module AuthStop {
  import opened Bytes
  import opened Xml
  import opened Auth
  import opened AuthPath
  import XmlPrint

  /** The first result that is not busy, buffer by buffer. */
  function FirstVerdict(k: Trusted, s: Session, buffers: seq<string>): Result
    decreases |buffers|
  {
    if buffers == [] || ResultOf(s.auth) != Busy then ResultOf(s.auth)
    else FirstVerdict(k, AuthProcess(k, s, buffers[0]), buffers[1..])
  }

  /** How many buffers it takes. */
  function Used(k: Trusted, s: Session, buffers: seq<string>): (n: nat)
    ensures n <= |buffers|
    decreases |buffers|
  {
    if buffers == [] || ResultOf(s.auth) != Busy then 0
    else 1 + Used(k, AuthProcess(k, s, buffers[0]), buffers[1..])
  }

  lemma {:induction false} UsedBuffers(k: Trusted, s: Session, buffers: seq<string>)
    ensures var n := Used(k, s, buffers);
            && FirstVerdict(k, s, buffers) == ResultOf(AuthAll(k, s, buffers[..n]).auth)
            && (FirstVerdict(k, s, buffers) == Busy ==> n == |buffers|)
    decreases |buffers|
  {
    if buffers != [] && ResultOf(s.auth) == Busy {
      var n := Used(k, s, buffers);
      assert buffers[..n][0] == buffers[0] && buffers[..n][1..] == buffers[1..][..n - 1];
      hide AuthProcess;
      UsedBuffers(k, AuthProcess(k, s, buffers[0]), buffers[1..]);
    }
  }

  function EventsOf(stream: string): seq<Event> {
    Process(Init(), stream).1
  }

  /** The result is the verdict on the buffers that were used. */
  lemma VerdictOnUsed(k: Trusted, buffers: seq<string>)
    ensures var n := Used(k, AuthInit(), buffers);
            && FirstVerdict(k, AuthInit(), buffers) == VerdictOn(k, EventsOf(Joined(buffers[..n])))
            && (FirstVerdict(k, AuthInit(), buffers) == Busy ==> n == |buffers|)
  {
    hide Process, VerdictOn;
    UsedBuffers(k, AuthInit(), buffers);
    AuthenticationIsRight(k, buffers[..Used(k, AuthInit(), buffers)]);
  }

  // --------------------------------------------------- events behind a verdict

  function BeforeError(events: seq<Event>): seq<Event> {
    if events == [] || events[0] == Error then [] else [events[0]] + BeforeError(events[1..])
  }

  /** The first error comes behind a key attribute that has decided. */
  predicate ErrorBehindKey(k: Trusted, events: seq<Event>) {
    Error in events && Judge(k, Tokens(BeforeError(events))) != Busy
  }

  lemma {:induction false} BeforeErrorJoin(a: seq<Event>, b: seq<Event>)
    ensures BeforeError(a + b) == if Error in a then BeforeError(a) else a + BeforeError(b)
    decreases |a|
  {
    if a == [] {
      assert a + b == b && [] + BeforeError(b) == BeforeError(b);
    } else {
      assert (a + b)[0] == a[0] && (a + b)[1..] == a[1..] + b;
      BeforeErrorJoin(a[1..], b);
      if Error !in a {
        assert a == [a[0]] + a[1..];
        ConcatAssoc([a[0]], a[1..], BeforeError(b));
      }
    }
  }

  lemma {:induction false} BeforeErrorAtoms(events: seq<Event>)
    ensures BeforeError(Atoms(events)) == Atoms(BeforeError(events))
    decreases |events|
  {
    if events != [] {
      var first := if events[0].Text? then Single(events[0].characters) else [events[0]];
      if events[0].Text? { SingleHasNoError(events[0].characters); }
      BeforeErrorJoin(first, Atoms(events[1..]));
      BeforeErrorAtoms(events[1..]);
      var before := BeforeError(events[1..]);
      if events[0] != Error { assert ([events[0]] + before)[1..] == before; }
    }
  }

  lemma TokensOfAtoms(events: seq<Event>)
    ensures Tokens(Atoms(events)) == Tokens(events) && (Error in Atoms(events) <==> Error in events)
    ensures Tokens(BeforeError(Atoms(events))) == Tokens(BeforeError(events))
  {
    AtomsTokens(Reading([], None), events);
    AtomsTokens(Reading([], None), BeforeError(events));
    BeforeErrorAtoms(events);
  }

  /** What a verdict depends on does not depend on how text is cut. */
  lemma SameAtoms(k: Trusted, e: seq<Event>, f: seq<Event>)
    requires Atoms(e) == Atoms(f)
    ensures VerdictOn(k, e) == VerdictOn(k, f) && ErrorBehindKey(k, e) == ErrorBehindKey(k, f)
  {
    TokensOfAtoms(e);
    TokensOfAtoms(f);
    hide Tokens, BeforeError, Judge;
  }

  lemma {:induction false} TokensGrow(r: Reading, events: seq<Event>)
    ensures r.tokens <= ReadAll(r, events).tokens
    decreases |events|
  {
    if events != [] { TokensGrow(Read(r, events[0]), events[1..]); }
  }

  lemma {:induction false} KeyStays(k: Trusted, ts: seq<Token>, more: seq<Token>)
    requires ts <= more && FirstKey(k, ts).Some?
    ensures FirstKey(k, more) == FirstKey(k, ts)
    decreases |more|
  {
    if |more| > |ts| {
      KeyStays(k, ts, more[..|more| - 1]);
    } else {
      assert more == ts;
    }
  }

  /** Once a key has decided, nothing but an error changes the verdict. */
  lemma DecidedStays(k: Trusted, e: seq<Event>, f: seq<Event>)
    requires Judge(k, Tokens(e)) != Busy
    ensures Judge(k, Tokens(e + f)) == Judge(k, Tokens(e))
  {
    var r := ReadAll(Reading([], None), e);
    ReadAllJoin(Reading([], None), e, f);
    TokensGrow(r, f);
    hide ReadAll, FirstKey;
    KeyStays(k, r.tokens, ReadAll(r, f).tokens);
  }

  /** A verdict on the beginning of a stream is one on the stream, unless an error comes behind the key. */
  lemma VerdictExtends(k: Trusted, e: seq<Event>, f: seq<Event>)
    requires VerdictOn(k, e) != Busy && !ErrorBehindKey(k, e + f)
    ensures VerdictOn(k, e + f) == VerdictOn(k, e)
  {
    hide Tokens, Judge;
    if Error in e {
      assert Error in e + f;
    } else {
      DecidedStays(k, e, f);
      BeforeErrorJoin(e, f);
      DecidedStays(k, e, BeforeError(f));
      hide BeforeError;
      assert Error in e + f <==> Error in f;
    }
  }

  // -------------------------------------------------------- the cuttings of a stream

  /** The program's result does not depend on how the stream comes in. */
  ghost predicate CutsAgree(k: Trusted, stream: string) {
    forall buffers :: Joined(buffers) == stream ==> FirstVerdict(k, AuthInit(), buffers) == VerdictOn(k, EventsOf(stream))
  }

  lemma {:induction false} JoinedAppend(a: seq<string>, b: seq<string>)
    ensures Joined(a + b) == Joined(a) + Joined(b)
    decreases |a|
  {
    if a == [] {
      assert a + b == b;
    } else {
      assert (a + b)[1..] == a[1..] + b;
      JoinedAppend(a[1..], b);
    }
  }

  lemma AllCutsAgree(k: Trusted, buffers: seq<string>)
    requires !ErrorBehindKey(k, EventsOf(Joined(buffers)))
    ensures FirstVerdict(k, AuthInit(), buffers) == VerdictOn(k, EventsOf(Joined(buffers)))
  {
    var n := Used(k, AuthInit(), buffers);
    VerdictOnUsed(k, buffers);
    var a, b := Joined(buffers[..n]), Joined(buffers[n..]);
    assert buffers == buffers[..n] + buffers[n..];
    JoinedAppend(buffers[..n], buffers[n..]);
    hide Joined, Used, FirstVerdict;
    if VerdictOn(k, EventsOf(a)) == Busy {
      assert buffers[..n] == buffers;
    } else {
      SplitExtends(k, a, b);
    }
  }

  lemma SplitExtends(k: Trusted, a: string, b: string)
    requires VerdictOn(k, EventsOf(a)) != Busy && !ErrorBehindKey(k, EventsOf(a + b))
    ensures VerdictOn(k, EventsOf(a + b)) == VerdictOn(k, EventsOf(a))
  {
    ProcessSplit(Init(), a, b);
    var e, f := EventsOf(a), Process(Process(Init(), a).0, b).1;
    AtomsJoin(e, f);
    hide Process, VerdictOn, ErrorBehindKey, Atoms;
    SameAtoms(k, EventsOf(a + b), e + f);
    VerdictExtends(k, e, f);
  }

  /** An error is told alone. */
  lemma ErrorAlone(c: Context, ch: char)
    requires Error in Char(c, ch).1
    ensures Char(c, ch).1 == [Error] && !InText(c.state)
  {
    hide Space;
  }

  /** The character at which a run tells its first error. */
  lemma {:induction false} FirstErrorAt(c: Context, data: string) returns (m: nat)
    requires Error in Run(c, data).1
    ensures m < |data|
    ensures var d := Run(c, data[..m]);
            Error !in d.1 && !InText(d.0.state) && BeforeError(Run(c, data).1) == d.1
    decreases |data|
  {
    var first, rest := Char(c, data[0]), Run(Char(c, data[0]).0, data[1..]);
    BeforeErrorJoin(first.1, rest.1);
    if Error in first.1 {
      ErrorAlone(c, data[0]);
      m := 0;
      assert data[..0] == "";
    } else {
      assert Error in rest.1;
      var j := FirstErrorAt(first.0, data[1..]);
      m := j + 1;
      assert data[..m][0] == data[0] && data[..m][1..] == data[1..][..j];
      hide Char;
      assert Run(c, data[..m]) == (Run(first.0, data[1..][..j]).0, first.1 + Run(first.0, data[1..][..j]).1);
    }
  }

  /** Cut right before that character, the stream gets the verdict of its key. */
  lemma CutBeforeError(k: Trusted, stream: string) returns (m: nat)
    requires ErrorBehindKey(k, EventsOf(stream))
    ensures m < |stream| && VerdictOn(k, EventsOf(stream[..m])) == Judge(k, Tokens(BeforeError(EventsOf(stream))))
  {
    var r := Run(Init(), stream);
    if InText(r.0.state) {
      BeforeErrorJoin(r.1, TextEvents(r.0.buf));
      assert Error !in TextEvents(r.0.buf);
    }
    hide Run, Judge, Tokens, BeforeError;
    assert Error in r.1;
    m := FirstErrorAt(Init(), stream);
  }

  lemma JoinedTwo(a: string, b: string)
    ensures Joined([a]) == a && Joined([a, b]) == a + b
  {
    assert [a, b][1..] == [b];
    assert Joined([b]) == b + Joined([]) == b && Joined([a]) == a + Joined([]) == a;
  }

  /** A buffer with a verdict is the last one that counts. */
  lemma StopsThere(k: Trusted, a: string, b: string)
    requires VerdictOn(k, EventsOf(a)) != Busy
    ensures FirstVerdict(k, AuthInit(), [a, b]) == VerdictOn(k, EventsOf(a))
  {
    AuthenticationIsRight(k, [a]);
    JoinedTwo(a, b);
    hide AuthProcess, Process, VerdictOn, Joined;
    var s := AuthProcess(k, AuthInit(), a);
    assert [a][1..] == [] && [a, b][1..] == [b];
    assert AuthAll(k, AuthInit(), [a]) == AuthAll(k, s, []) == s;
    assert FirstVerdict(k, AuthInit(), [a, b]) == FirstVerdict(k, s, [b]);
  }

  /**
   Every way of cutting a stream into buffers gets the same result from the program, the
   verdict on the whole stream, exactly when its first error does not come behind a key
   attribute that has decided.
   */
  lemma CutsAgreeExactly(k: Trusted, stream: string)
    ensures CutsAgree(k, stream) <==> !ErrorBehindKey(k, EventsOf(stream))
  {
    if ErrorBehindKey(k, EventsOf(stream)) {
      var m := CutBeforeError(k, stream);
      var a, b := stream[..m], stream[m..];
      DecidedIsNoError(k, BeforeError(EventsOf(stream)));
      StopsThere(k, a, b);
      JoinedTwo(a, b);
      assert a + b == stream;
      hide FirstVerdict, Joined;
      assert VerdictOn(k, EventsOf(stream)) == Unparsable;
      assert Joined([a, b]) == stream;
    } else {
      forall buffers | Joined(buffers) == stream
        ensures FirstVerdict(k, AuthInit(), buffers) == VerdictOn(k, EventsOf(stream))
      {
        AllCutsAgree(k, buffers);
      }
    }
  }

  lemma DecidedIsNoError(k: Trusted, events: seq<Event>)
    ensures Judge(k, Tokens(events)) != Unparsable
  {
  }

  /** A trusted file with something behind it that is not XML: in a buffer of its own it is not seen. */
  lemma ErrorBehindTheFile(k: Trusted, nodes: seq<Node>)
    requires XmlPrint.NodesOk(nodes) && Verdict(k, nodes) == Pass
    ensures FirstVerdict(k, AuthInit(), [XmlPrint.Print(nodes), "<>"]) == Pass
    ensures FirstVerdict(k, AuthInit(), [XmlPrint.Print(nodes) + "<>"]) == Unparsable
  {
    var file := XmlPrint.Print(nodes);
    JoinedTwo(file, "<>");
    JoinedTwo(file + "<>", "");
    XmlPrint.PrintedFileIsJudged(k, nodes, [file]);
    AuthenticationIsRight(k, [file]);
    StopsThere(k, file, "<>");
    ErrorAdded(k, file);
    AuthenticationIsRight(k, [file + "<>"]);
    hide Process, VerdictOn, Joined, AuthProcess;
    assert [file + "<>"][1..] == [];
    assert AuthAll(k, AuthInit(), [file + "<>"]) == AuthProcess(k, AuthInit(), file + "<>");
  }

  lemma ErrorAdded(k: Trusted, file: string)
    requires Process(Init(), file).0 == Init()
    ensures VerdictOn(k, EventsOf(file + "<>")) == Unparsable
  {
    ProcessSplit(Init(), file, "<>");
    var e, f := EventsOf(file), Process(Init(), "<>").1;
    EmptyElement();
    AtomsJoin(e, f);
    hide Process, Atoms;
    assert Error in e + f;
    hide VerdictOn;
    SameAtoms(k, EventsOf(file + "<>"), e + f);
    assert VerdictOn(k, e + f) == Unparsable by { Unparsed(k, e + f); }
  }

  lemma Unparsed(k: Trusted, events: seq<Event>)
    requires Error in events
    ensures VerdictOn(k, events) == Unparsable
  {
  }

  lemma EmptyElement()
    ensures Error in Process(Init(), "<>").1
  {
    var c := Char(Init(), '<').0;
    assert "<>"[1..] == ">" && ">"[1..] == "";
    assert Char(c, '>').1 == [Error];
    assert Run(c, ">").1 == [Error] + Run(Char(c, '>').0, "").1;
    assert Run(Init(), "<>").1 == Char(Init(), '<').1 + Run(c, ">").1;
  }
}
