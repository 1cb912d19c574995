/**
 The state of bootloader/auth.c and bootloader/xml.c: callbacks that move an
 automaton, and a parser with a buffer of its own that calls them, proved against
 modules Auth and Xml.
 */
module AuthState {
  import opened Bytes
  import opened Xml
  import opened Auth
  import opened AuthPath
  import opened AuthStop

  /** AUTH_STATE */
  datatype Code =
    | CodePass | CodeFail | CodeError | CodeTop | CodePackages | CodePackage | CodeNameAttr | CodeSigs | CodeCert
    | CodeCertKey | CodeCertFail

  class Authenticator {
    const trusted: Trusted
    var state: Code
    var depth: int
    var nameMatches: bool
    const packageName: array<char>
    var packageNameCursor: nat
    var packageKeyCursor: nat

    ghost predicate Valid()
      reads this
    {
      && packageName.Length == |trusted.manager| + 1
      && packageNameCursor <= packageName.Length && packageKeyCursor <= |trusted.key|
    }

    ghost function Abs(): Auth
      requires Valid()
      reads this, packageName
    {
      var phase :=
        match state
        case CodePass => DonePass
        case CodeFail => DoneFail
        case CodeError => ParseError
        case CodeTop => Top
        case CodePackages => Packages
        case CodePackage => Package
        case CodeNameAttr => NameAttr(packageName[..packageNameCursor])
        case CodeSigs => Sigs
        case CodeCert => Cert
        case CodeCertKey => CertKey(packageKeyCursor)
        case CodeCertFail => CertFail;
      Auth(phase, depth, nameMatches)
    }

    constructor (trusted: Trusted)
      ensures Valid() && fresh(packageName) && this.trusted == trusted && Abs() == AuthInit().auth
    {
      this.trusted := trusted;
      packageName := new char[|trusted.manager| + 1](_ => '\0');
      state, depth, nameMatches := CodeTop, 0, false;
      packageNameCursor, packageKeyCursor := 0, 0;
    }

    method StartElement(name: string)
      requires Valid()
      modifies this
      ensures Valid() && Abs() == OnStartElement(old(Abs()), name)
    {
      var n := CString(name);
      match state {
        case CodeTop =>
          if depth == 0 && n == "packages" { state := CodePackages; }
        case CodePackages =>
          if depth == 1 && n == "package" { state, nameMatches := CodePackage, false; }
        case CodePackage =>
          if depth == 2 && nameMatches && n == "sigs" { state := CodeSigs; }
        case CodeSigs =>
          if depth == 3 && nameMatches && n == "cert" { state := CodeCert; }
        case _ =>
      }
      depth := depth + 1;
    }

    method EndElement()
      requires Valid()
      modifies this
      ensures Valid() && Abs() == OnEndElement(old(Abs()))
    {
      match state {
        case CodePackages => if depth == 1 { state := CodeTop; }
        case CodePackage => if depth == 2 { state := CodePackages; }
        case CodeSigs => if depth == 3 { state := CodePackage; }
        case CodeCert => if depth == 4 { state := CodeSigs; }
        case _ =>
      }
      depth := depth - 1;
    }

    method StartAttribute(name: string)
      requires Valid()
      modifies this
      ensures Valid() && Abs() == OnStartAttribute(old(Abs()), name)
    {
      var n := CString(name);
      match state {
        case CodePackage =>
          if depth == 2 && n == "name" { packageNameCursor, state := 0, CodeNameAttr; }
        case CodeCert =>
          if depth == 4 && n == "key" { packageKeyCursor, state := 0, CodeCertKey; }
        case _ =>
      }
      depth := depth + 1;
    }

    method EndAttribute()
      requires Valid()
      modifies this
      ensures Valid() && Abs() == OnEndAttribute(trusted, old(Abs()))
    {
      depth := depth - 1;
      match state {
        case CodeNameAttr =>
          if packageNameCursor == packageName.Length - 1 && packageName[..packageNameCursor] == trusted.manager {
            nameMatches := true;
          }
          state := CodePackage;
        case CodeCertKey =>
          state := if packageKeyCursor == |trusted.key| then CodePass else CodeFail;
        case CodeCertFail => state := CodeFail;
        case _ =>
      }
    }

    method Characters(s: string)
      requires Valid()
      modifies this, packageName
      ensures Valid() && Abs() == OnCharacters(trusted, old(Abs()), s)
    {
      match state {
        case CodeNameAttr =>
          if packageNameCursor + |s| <= packageName.Length {
            forall i | 0 <= i < |s| { packageName[packageNameCursor + i] := s[i]; }
            packageNameCursor := packageNameCursor + |s|;
            assert packageName[..packageNameCursor] == old(packageName[..packageNameCursor]) + s;
          } else {
            state := CodePackage;
          }
        case CodeCertKey =>
          if |s| + packageKeyCursor < |trusted.key| + 1
             && trusted.key[packageKeyCursor..packageKeyCursor + |s|] == s {
            packageKeyCursor := packageKeyCursor + |s|;
          } else {
            state := CodeCertFail;
          }
        case _ =>
      }
    }

    method ReportError()
      requires Valid()
      modifies this`state
      ensures Valid() && Abs() == On(trusted, old(Abs()), Error)
    {
      state := CodeError;
    }
  }

  lemma OnOneMore(k: Trusted, a: Auth, events: seq<Event>, e: Event)
    ensures OnAll(k, a, events + [e]) == On(k, OnAll(k, a, events), e)
  {
    OnAllJoin(k, a, events, [e]);
    OnOne(k, OnAll(k, a, events), e);
  }

  class XmlContext {
    var state: State
    const buf: array<char>
    var bufPos: nat
    var attrUseApos: bool
    var isProcInst: bool
    const callbacks: Authenticator

    /** Everything that has been told to the callbacks, which they knew nothing about at first. */
    ghost var told: seq<Event>

    ghost predicate Valid()
      reads this, callbacks, callbacks.packageName
    {
      && buf.Length == XML_BUF_SIZE && bufPos < XML_BUF_SIZE && buf != callbacks.packageName
      && callbacks.Valid() && callbacks.Abs() == OnAll(callbacks.trusted, AuthInit().auth, told)
      && (state == Failed ==> Error in told)
    }

    ghost function Abs(): Context
      requires bufPos <= buf.Length
      reads this, buf
    {
      Context(state, buf[..bufPos], attrUseApos, isProcInst)
    }

    /** XMLInit */
    constructor (callbacks: Authenticator)
      requires callbacks.Valid() && callbacks.Abs() == AuthInit().auth
      ensures Valid() && fresh(buf) && this.callbacks == callbacks && Abs() == Init() && told == []
    {
      buf := new char[XML_BUF_SIZE](_ => '\0');
      state, bufPos, attrUseApos, isProcInst := State.Characters, 0, false, false;
      this.callbacks, told := callbacks, [];
    }

    method Tell(e: Event)
      requires Valid()
      modifies this`told, callbacks, callbacks.packageName
      ensures Valid() && told == old(told) + [e] && buf[..] == old(buf[..])
    {
      match e {
        case StartElement(name) => callbacks.StartElement(name);
        case EndElement(_) => callbacks.EndElement();
        case EndEmptyElement => callbacks.EndElement();
        case StartAttribute(name) => callbacks.StartAttribute(name);
        case EndAttribute => callbacks.EndAttribute();
        case Text(characters) => callbacks.Characters(characters);
        case Error => callbacks.ReportError();
      }
      OnOneMore(callbacks.trusted, AuthInit().auth, told, e);
      told := told + [e];
    }

    /** The state after an operation and what it told. */
    twostate predicate Did(r: (Context, seq<Event>))
      reads this, buf, callbacks, callbacks.packageName
    {
      Valid() && Abs() == r.0 && told == old(told) + r.1
    }

    method Flush()
      requires Valid()
      modifies this, buf, callbacks, callbacks.packageName
      ensures Did(FlushBuf(old(Abs())))
    {
      buf[bufPos] := '\0';
      var s := buf[..bufPos];
      assert s == old(buf[..bufPos]);
      bufPos := 0;
      match state {
        case Characters => if s != "" { Tell(Text(s)); }
        case AttributeValue => if s != "" { Tell(Text(s)); }
        case ElementName =>
          if s == "" {
            Tell(Error);
            state := Failed;
          } else if !isProcInst {
            Tell(StartElement(s));
          }
        case ElementOpenEmpty => Tell(EndEmptyElement);
        case AttributeName => Tell(StartAttribute(s));
        case ElementCloseName => Tell(EndElement(s));
        case _ =>
      }
    }

    method FlushInto(next: State)
      requires Valid() && next != Failed
      modifies this, buf, callbacks, callbacks.packageName
      ensures Did(FlushTo(old(Abs()), next))
    {
      Flush();
      state := next;
    }

    method PushChar(c: char)
      requires Valid() && bufPos <= XML_BUF_SIZE - 2
      modifies this`bufPos, buf
      ensures Did(Push(old(Abs()), c))
    {
      buf[bufPos] := c;
      bufPos := bufPos + 1;
      assert buf[..bufPos] == old(buf[..bufPos]) + [c];
    }

    method FailHere()
      requires Valid()
      modifies this`told, this`state, callbacks, callbacks.packageName
      ensures Did(Xml.Fail(old(Abs())))
    {
      Tell(Error);
      state := Failed;
    }

    method InElementName(c: char)
      requires Valid() && state == ElementName && bufPos <= XML_BUF_SIZE - 2
      modifies this, buf, callbacks, callbacks.packageName
      ensures Did(Step(old(Abs()), c))
    {
      if Space(c) {
        FlushInto(ElementOpen);
      } else if c == '>' {
        FlushInto(State.Characters);
      } else if c == '/' {
        if bufPos > 0 {
          assert Abs().buf != "";
          FlushInto(ElementOpenEmpty);
        } else {
          state := ElementCloseName;
        }
      } else if c == '?' && bufPos == 0 {
        isProcInst := true;
      } else {
        PushChar(c);
      }
    }

    method InElementOpen(c: char)
      requires Valid() && state == ElementOpen && bufPos <= XML_BUF_SIZE - 2
      modifies this, buf, callbacks, callbacks.packageName
      ensures Did(Step(old(Abs()), c))
    {
      if Space(c) {
      } else if c == '>' {
        if !isProcInst { state := State.Characters; } else { FailHere(); }
      } else if c == '?' {
        if isProcInst { state := ProcInstWaitClose; } else { FailHere(); }
      } else if c == '/' {
        state := ElementOpenEmpty;
      } else {
        PushChar(c);
        state := AttributeName;
      }
    }

    method InAttribute(c: char)
      requires Valid() && bufPos <= XML_BUF_SIZE - 2
      requires state in {AttributeName, AttributeWaitEq, AttributeWaitQuot, AttributeValue}
      modifies this, buf, callbacks, callbacks.packageName
      ensures Did(Step(old(Abs()), c))
    {
      if state == AttributeName {
        if Space(c) {
          FlushInto(AttributeWaitEq);
        } else if c == '=' {
          FlushInto(AttributeWaitQuot);
        } else {
          PushChar(c);
        }
      } else if state == AttributeWaitEq {
        if Space(c) {
        } else if c == '=' {
          state := AttributeWaitQuot;
        } else {
          FailHere();
        }
      } else if state == AttributeWaitQuot {
        if Space(c) {
        } else if c == '"' {
          state, attrUseApos := AttributeValue, false;
        } else if c == '\'' {
          state, attrUseApos := AttributeValue, true;
        } else {
          FailHere();
        }
      } else if (c == '"' && !attrUseApos) || (c == '\'' && attrUseApos) {
        FlushInto(ElementOpen);
        Tell(EndAttribute);
      } else {
        PushChar(c);
      }
    }

    method InElementEnd(c: char)
      requires Valid() && bufPos <= XML_BUF_SIZE - 2
      requires state in {ElementOpenEmpty, ElementClose, ElementCloseName, ProcInstWaitClose}
      modifies this, buf, callbacks, callbacks.packageName
      ensures Did(Step(old(Abs()), c))
    {
      if state == ElementOpenEmpty {
        if Space(c) {
        } else if c == '>' {
          FlushInto(State.Characters);
        } else {
          FailHere();
        }
      } else if state == ElementClose {
        if Space(c) {
        } else if c == '>' {
          state := State.Characters;
        } else {
          FailHere();
        }
      } else if state == ElementCloseName {
        if Space(c) {
          FlushInto(ElementClose);
        } else if c == '>' {
          FlushInto(State.Characters);
        } else {
          PushChar(c);
        }
      } else if c == '>' {
        state := State.Characters;
      } else {
        FailHere();
      }
    }

    /** The switch on the state. */
    method Switch(c: char)
      requires Valid() && state != Failed && bufPos <= XML_BUF_SIZE - 2
      modifies this, buf, callbacks, callbacks.packageName
      ensures Did(Step(old(Abs()), c))
    {
      if state == State.Characters {
        if c == '<' {
          FlushInto(ElementName);
          isProcInst := false;
        } else {
          PushChar(c);
        }
      } else if state == ElementName {
        InElementName(c);
      } else if state == ElementOpen {
        InElementOpen(c);
      } else if state in {AttributeName, AttributeWaitEq, AttributeWaitQuot, AttributeValue} {
        InAttribute(c);
      } else {
        InElementEnd(c);
      }
    }

    /** One turn of the loop, which makes room in the buffer first. */
    method OneChar(c: char)
      requires Valid() && state != Failed
      modifies this, buf, callbacks, callbacks.packageName
      ensures Did(Char(old(Abs()), c))
    {
      if bufPos > XML_BUF_SIZE - 2 {
        if InText(state) {
          Flush();
          Switch(c);
        } else {
          FailHere();
        }
      } else {
        Switch(c);
      }
    }

    /** The loop over the characters, which an error ends. */
    method Loop(data: string)
      requires Valid()
      modifies this, buf, callbacks, callbacks.packageName
      ensures Did(Run(old(Abs()), data))
    {
      hide Char, OnAll, FlushBuf;
      ghost var run := Run(Abs(), data);
      var i := 0;
      assert data[0..] == data;
      while i < |data| && state != Failed
        invariant 0 <= i <= |data| && Valid()
        invariant Run(Abs(), data[i..]).0 == run.0
        invariant told + Run(Abs(), data[i..]).1 == old(told) + run.1
      {
        ghost var before, c := told, Abs();
        ghost var rest := Run(c, data[i..]).1;
        assert data[i..][1..] == data[i + 1..];
        OneChar(data[i]);
        ghost var now, later := Char(c, data[i]).1, Run(Abs(), data[i + 1..]).1;
        assert rest == now + later && told == before + now;
        ConcatAssoc(before, now, later);
        i := i + 1;
      }
      assert told + [] == told;
    }

    method XMLProcess(data: string)
      requires Valid()
      modifies this, buf, callbacks, callbacks.packageName
      ensures Did(Process(old(Abs()), data))
    {
      hide Run, OnAll, FlushBuf;
      Loop(data);
      ghost var run, now := Run(old(Abs()), data), told;
      if InText(state) {
        ghost var flushed := FlushBuf(Abs()).1;
        Flush();
        ConcatAssoc(old(told), run.1, flushed);
      }
    }
  }

  /** AuthProcess: a parse error of the context overrides the callbacks' result. */
  method AuthProcessData(context: XmlContext, data: string) returns (result: Result)
    requires context.Valid()
    modifies context, context.buf, context.callbacks, context.callbacks.packageName
    ensures context.Valid()
    ensures Current(context) == AuthProcess(context.callbacks.trusted, old(Current(context)), data)
    ensures result == ResultOf(context.callbacks.Abs())
  {
    var auth := context.callbacks;
    ghost var before := context.told;
    context.XMLProcess(data);
    OnAllJoin(auth.trusted, AuthInit().auth, before, Process(old(context.Abs()), data).1);
    if context.state == Failed {
      ErrorsSpoilIt(auth.trusted, AuthInit().auth, context.told);
      auth.ReportError();
    }
    match auth.state {
      case CodePass => result := Pass;
      case CodeFail => result := Fail;
      case CodeError => result := Unparsable;
      case _ => result := Busy;
    }
  }

  ghost function Current(context: XmlContext): Session
    requires context.Valid()
    reads context, context.buf, context.callbacks, context.callbacks.packageName
  {
    Session(context.callbacks.Abs(), context.Abs())
  }

  /** The packages file as main.c reads it: the first verdict closes it, and the buffers behind are ignored. */
  method AuthenticateBuffers(trusted: Trusted, buffers: seq<string>) returns (result: Result, used: nat)
    ensures result == FirstVerdict(trusted, AuthInit(), buffers) && used == Used(trusted, AuthInit(), buffers)
    ensures result == VerdictOn(trusted, EventsOf(Joined(buffers[..used]))) && (result == Busy ==> used == |buffers|)
    ensures !ErrorBehindKey(trusted, EventsOf(Joined(buffers))) ==>
              result == VerdictOn(trusted, EventsOf(Joined(buffers)))
  {
    hide Process, OnAll, VerdictOn, AuthProcess, ErrorBehindKey;
    var auth := new Authenticator(trusted);
    var context := new XmlContext(auth);
    result, used := Busy, 0;
    assert buffers[0..] == buffers;
    while used < |buffers| && result == Busy
      invariant used <= |buffers| && context.Valid() && context.callbacks == auth && auth.trusted == trusted
      invariant fresh(auth) && fresh(context) && fresh(context.buf) && fresh(auth.packageName)
      invariant FirstVerdict(trusted, Current(context), buffers[used..]) == FirstVerdict(trusted, AuthInit(), buffers)
      invariant used + Used(trusted, Current(context), buffers[used..]) == Used(trusted, AuthInit(), buffers)
      invariant result == ResultOf(auth.Abs())
    {
      assert buffers[used..][1..] == buffers[used + 1..];
      result := AuthProcessData(context, buffers[used]);
      used := used + 1;
    }
    VerdictOnUsed(trusted, buffers);
    if !ErrorBehindKey(trusted, EventsOf(Joined(buffers))) { AllCutsAgree(trusted, buffers); }
  }
}
