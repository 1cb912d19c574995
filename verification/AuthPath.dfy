/**
 The verdict on arbitrary input: the path of open elements and the attributes seen
 on it decide, for every sequence of events that the parser can tell, complete or
 not, with or without closing tags that match.
 */
module AuthPath {
  import opened Bytes
  import opened Xml
  import opened Auth

  /** Elements opening and closing, and whole attributes. */
  datatype Token = Open(name: string) | Close | Attribute(name: string, value: string)

  /** The tokens so far, and the attribute that has begun. */
  datatype Reading = Reading(tokens: seq<Token>, current: Option<Attr>)

  function Read(r: Reading, e: Event): Reading {
    match e
    case StartElement(name) => r.(tokens := r.tokens + [Open(name)])
    case EndElement(_) => r.(tokens := r.tokens + [Close])
    case EndEmptyElement => r.(tokens := r.tokens + [Close])
    case StartAttribute(name) => r.(current := Some(Attr(name, "")))
    case Text(s) => if r.current.Some? then r.(current := Some(Attr(r.current.value.name, r.current.value.value + s))) else r
    case EndAttribute =>
      if r.current.Some? then Reading(r.tokens + [Attribute(r.current.value.name, r.current.value.value)], None) else r
    case Error => r
  }

  function ReadAll(r: Reading, events: seq<Event>): Reading
    decreases |events|
  {
    if events == [] then r else ReadAll(Read(r, events[0]), events[1..])
  }

  /** The tokens of a sequence of events; an attribute that has not ended is not one yet. */
  function Tokens(events: seq<Event>): seq<Token> {
    ReadAll(Reading([], None), events).tokens
  }

  // ------------------------------------------------------- the path of elements

  /** Open elements, less the ones that were closed without being open. */
  function Depth(ts: seq<Token>): int {
    if ts == [] then 0
    else
      var before := Depth(ts[..|ts| - 1]);
      match ts[|ts| - 1]
      case Open(_) => before + 1
      case Close => before - 1
      case Attribute(_, _) => before
  }

  /** The name of the element that is open at a depth. */
  function OpenAt(ts: seq<Token>, depth: int): Option<string> {
    if ts == [] then None
    else
      var before := ts[..|ts| - 1];
      match ts[|ts| - 1]
      case Open(name) => if Depth(before) == depth then Some(CString(name)) else OpenAt(before, depth)
      case Close => if Depth(before) == depth + 1 then None else OpenAt(before, depth)
      case Attribute(_, _) => OpenAt(before, depth)
  }

  /** Whether the element open at depth 1 has had an attribute with the manager's name. */
  function NameSeen(k: Trusted, ts: seq<Token>): bool {
    if ts == [] then false
    else
      var before := ts[..|ts| - 1];
      match ts[|ts| - 1]
      case Open(_) => if Depth(before) == 1 then false else NameSeen(k, before)
      case Close => NameSeen(k, before)
      case Attribute(name, value) =>
        if Depth(before) == 2 && CString(name) == "name" && value == k.manager then true else NameSeen(k, before)
  }

  predicate InPackage(ts: seq<Token>) {
    OpenAt(ts, 0) == Some("packages") && OpenAt(ts, 1) == Some("package")
  }

  /** On packages/package/sigs, in a package already seen with the manager's name. */
  predicate InSigs(k: Trusted, ts: seq<Token>) {
    InPackage(ts) && OpenAt(ts, 2) == Some("sigs") && NameSeen(k, ts)
  }

  predicate InCert(k: Trusted, ts: seq<Token>) {
    InSigs(k, ts) && OpenAt(ts, 3) == Some("cert")
  }

  /** The value of the first key attribute on a certificate of such a package. */
  function FirstKey(k: Trusted, ts: seq<Token>): Option<string> {
    if ts == [] then None
    else
      var before, last := ts[..|ts| - 1], ts[|ts| - 1];
      if FirstKey(k, before).Some? then FirstKey(k, before)
      else if last.Attribute? && CString(last.name) == "key" && Depth(before) == 4 && InCert(k, before) then Some(last.value)
      else None
  }

  function Judge(k: Trusted, ts: seq<Token>): Result {
    match FirstKey(k, ts)
    case None => Busy
    case Some(value) => if value == k.key then Pass else Fail
  }

  // -------------------------------------------------- the automaton on tokens

  /** What a token does to the automaton. */
  function OnToken(k: Trusted, a: Auth, t: Token): Auth {
    match t
    case Open(name) => OnStartElement(a, name)
    case Close => OnEndElement(a)
    case Attribute(name, value) => OnEndAttribute(k, OnCharacters(k, OnStartAttribute(a, name), value))
  }

  function OnTokens(k: Trusted, ts: seq<Token>): Auth {
    if ts == [] then AuthInit().auth else OnToken(k, OnTokens(k, ts[..|ts| - 1]), ts[|ts| - 1])
  }

  /** The state that belongs to the path. */
  function PathState(k: Trusted, ts: seq<Token>): Phase {
    if OpenAt(ts, 0) != Some("packages") then Top
    else if OpenAt(ts, 1) != Some("package") then Packages
    else if !InSigs(k, ts) then Package
    else if OpenAt(ts, 3) != Some("cert") then Sigs
    else Cert
  }

  predicate Agrees(k: Trusted, a: Auth, ts: seq<Token>) {
    && a.depth == Depth(ts)
    && match FirstKey(k, ts)
       case Some(value) => a.state == if value == k.key then DonePass else DoneFail
       case None => a.state == PathState(k, ts) && (InPackage(ts) ==> a.nameMatches == NameSeen(k, ts))
  }

  /** An element can only be open at a depth that is not beyond the current one. */
  lemma {:induction false} OpenInside(ts: seq<Token>, depth: int)
    requires OpenAt(ts, depth).Some?
    ensures Depth(ts) > depth
  {
    var before := ts[..|ts| - 1];
    if OpenAt(before, depth).Some? { OpenInside(before, depth); }
  }

  lemma {:induction false} NothingOpen(ts: seq<Token>)
    ensures forall d :: d >= Depth(ts) ==> OpenAt(ts, d) == None
  {
    forall d | d >= Depth(ts) ensures OpenAt(ts, d) == None {
      if OpenAt(ts, d).Some? { OpenInside(ts, d); }
    }
  }

  /** The tokens before the last one, with what the last one changes about them. */
  lemma {:induction false} AfterOpen(k: Trusted, ts: seq<Token>, name: string)
    ensures var t := ts + [Open(name)];
            && Depth(t) == Depth(ts) + 1
            && (forall d :: OpenAt(t, d) == if d == Depth(ts) then Some(CString(name)) else OpenAt(ts, d))
            && NameSeen(k, t) == (Depth(ts) != 1 && NameSeen(k, ts))
            && FirstKey(k, t) == FirstKey(k, ts)
  {
    var t := ts + [Open(name)];
    assert t[..|t| - 1] == ts;
  }

  lemma {:induction false} AfterClose(k: Trusted, ts: seq<Token>)
    ensures var t := ts + [Close];
            && Depth(t) == Depth(ts) - 1
            && (forall d :: OpenAt(t, d) == if d == Depth(ts) - 1 then None else OpenAt(ts, d))
            && NameSeen(k, t) == NameSeen(k, ts)
            && FirstKey(k, t) == FirstKey(k, ts)
  {
    var t := ts + [Close];
    assert t[..|t| - 1] == ts;
  }

  lemma {:induction false} AfterAttribute(k: Trusted, ts: seq<Token>, name: string, value: string)
    ensures var t := ts + [Attribute(name, value)];
            && Depth(t) == Depth(ts)
            && (forall d :: OpenAt(t, d) == OpenAt(ts, d))
            && NameSeen(k, t) == (NameSeen(k, ts) || (Depth(ts) == 2 && CString(name) == "name" && value == k.manager))
            && FirstKey(k, t) == if FirstKey(k, ts).Some? then FirstKey(k, ts)
                                 else if CString(name) == "key" && Depth(ts) == 4 && InCert(k, ts) then Some(value) else None
  {
    var t := ts + [Attribute(name, value)];
    assert t[..|t| - 1] == ts;
  }

  lemma {:induction false} OpenAgrees(k: Trusted, a: Auth, ts: seq<Token>, name: string)
    requires Agrees(k, a, ts)
    ensures Agrees(k, OnStartElement(a, name), ts + [Open(name)])
  {
    AfterOpen(k, ts, name);
    NothingOpen(ts);
    hide CString, Depth, OpenAt, NameSeen, FirstKey;
  }

  lemma {:induction false} CloseAgrees(k: Trusted, a: Auth, ts: seq<Token>)
    requires Agrees(k, a, ts)
    ensures Agrees(k, OnEndElement(a), ts + [Close])
  {
    AfterClose(k, ts);
    NothingOpen(ts);
    hide CString, Depth, OpenAt, NameSeen, FirstKey;
  }

  /** Off the path an attribute changes nothing. */
  lemma {:induction false} OtherAttribute(k: Trusted, a: Auth, name: string, value: string)
    requires Done(a.state) || Level(a.state) >= 0
    requires !(a.state == Package && a.depth == 2 && CString(name) == "name")
    requires !(a.state == Cert && a.depth == 4 && CString(name) == "key")
    ensures OnToken(k, a, Attribute(name, value)) == a
  {
    hide CString;
  }

  lemma {:induction false} NameAttribute(k: Trusted, a: Auth, name: string, value: string)
    requires a.state == Package && a.depth == 2 && CString(name) == "name"
    ensures OnToken(k, a, Attribute(name, value)) == a.(nameMatches := a.nameMatches || value == k.manager)
  {
    assert "" + value == value;
  }

  lemma {:induction false} AttributeAgrees(k: Trusted, a: Auth, ts: seq<Token>, name: string, value: string)
    requires Agrees(k, a, ts)
    ensures Agrees(k, OnToken(k, a, Attribute(name, value)), ts + [Attribute(name, value)])
  {
    AfterAttribute(k, ts, name, value);
    NothingOpen(ts);
    var n := CString(name);
    if a.state == Package && a.depth == 2 && n == "name" {
      NameAttribute(k, a, name, value);
    } else if a.state == Cert && a.depth == 4 && n == "key" {
      KeyAttribute(k, a, Attr(name, value));
    } else {
      OtherAttribute(k, a, name, value);
    }
    hide CString, Depth, OpenAt, NameSeen, FirstKey, OnToken;
  }
  lemma {:induction false} TokensAgree(k: Trusted, ts: seq<Token>)
    ensures Agrees(k, OnTokens(k, ts), ts) && OnTokens(k, ts).Valid(k)
    decreases |ts|
  {
    if ts != [] {
      var before, last := ts[..|ts| - 1], ts[|ts| - 1];
      TokensAgree(k, before);
      var a := OnTokens(k, before);
      assert before + [last] == ts;
      match last {
        case Open(name) => OpenAgrees(k, a, before, name);
        case Close => CloseAgrees(k, a, before);
        case Attribute(name, value) => AttributeAgrees(k, a, before, name, value);
      }
      AgreesValid(k, OnToken(k, a, last), ts);
    }
  }

  lemma {:induction false} AgreesValid(k: Trusted, a: Auth, ts: seq<Token>)
    requires Agrees(k, a, ts)
    ensures a.Valid(k) && (Done(a.state) || Level(a.state) >= 0)
  {
    hide Depth, OpenAt, NameSeen, FirstKey;
  }

  // ------------------------------------------------------ tokens out of events

  /** Attributes do not overlap, nothing but text is inside one, and there is no error. */
  predicate Shaped(inside: bool, events: seq<Event>)
    decreases |events|
  {
    events == []
    || match events[0]
       case StartElement(_) => !inside && Shaped(false, events[1..])
       case EndElement(_) => !inside && Shaped(false, events[1..])
       case EndEmptyElement => !inside && Shaped(false, events[1..])
       case StartAttribute(_) => !inside && Shaped(true, events[1..])
       case EndAttribute => inside && Shaped(false, events[1..])
       case Text(_) => Shaped(inside, events[1..])
       case Error => false
  }

  /** Whether an attribute has begun and not ended. */
  function Inside(inside: bool, events: seq<Event>): bool
    decreases |events|
  {
    if events == [] then inside
    else Inside(if events[0].StartAttribute? then true else if events[0].EndAttribute? then false else inside, events[1..])
  }

  lemma {:induction false} ShapedJoin(inside: bool, e: seq<Event>, f: seq<Event>)
    requires Shaped(inside, e) && Shaped(Inside(inside, e), f)
    ensures Shaped(inside, e + f) && Inside(inside, e + f) == Inside(Inside(inside, e), f)
    decreases |e|
  {
    if e == [] {
      assert e + f == f;
    } else {
      assert (e + f)[1..] == e[1..] + f;
      ShapedJoin(if e[0].StartAttribute? then true else if e[0].EndAttribute? then false else inside, e[1..], f);
    }
  }

  /** The automaton that has seen these tokens, and so much of an attribute. */
  function Seen(k: Trusted, r: Reading): Auth {
    match r.current
    case None => OnTokens(k, r.tokens)
    case Some(attr) => OnCharacters(k, OnStartAttribute(OnTokens(k, r.tokens), attr.name), attr.value)
  }

  lemma {:induction false} AttributeBegins(k: Trusted, ts: seq<Token>, name: string)
    ensures var b := OnStartAttribute(OnTokens(k, ts), name); b.Valid(k) && OnCharacters(k, b, "") == b
  {
    TokensAgree(k, ts);
    hide OnTokens, Agrees;
    var b := OnStartAttribute(OnTokens(k, ts), name);
    assert b.state.NameAttr? ==> b.state.got + "" == b.state.got;
  }

  lemma {:induction false} ReadAgrees(k: Trusted, r: Reading, e: Event)
    requires Shaped(r.current.Some?, [e])
    ensures On(k, Seen(k, r), e) == Seen(k, Read(r, e))
    ensures Read(r, e).current.Some? == Inside(r.current.Some?, [e])
  {
    TokensAgree(k, r.tokens);
    AgreesValid(k, OnTokens(k, r.tokens), r.tokens);
    hide Agrees, CString;
    var t := Read(r, e).tokens;
    if |t| > |r.tokens| { assert t[..|t| - 1] == r.tokens; }
    match e
    case StartAttribute(name) => AttributeBegins(k, r.tokens, name);
    case Text(s) =>
      if r.current.Some? {
        AttributeBegins(k, r.tokens, r.current.value.name);
        TwoPieces(k, OnStartAttribute(OnTokens(k, r.tokens), r.current.value.name), r.current.value.value, s);
      }
    case _ =>
  }

  lemma {:induction false} ShapedFirst(inside: bool, events: seq<Event>)
    requires events != [] && Shaped(inside, events)
    ensures Shaped(inside, events[..1]) && Shaped(Inside(inside, events[..1]), events[1..])
  {
    assert events[..1] == [events[0]] && [events[0]][1..] == [];
  }

  lemma {:induction false} ReadAllAgrees(k: Trusted, r: Reading, events: seq<Event>)
    requires Shaped(r.current.Some?, events)
    ensures OnAll(k, Seen(k, r), events) == Seen(k, ReadAll(r, events))
    decreases |events|
  {
    if events != [] {
      ShapedFirst(r.current.Some?, events);
      assert events[..1] == [events[0]];
      ReadAgrees(k, r, events[0]);
      hide Shaped, Inside, Seen, On, Read;
      ReadAllAgrees(k, Read(r, events[0]), events[1..]);
    }
  }

  /** The result is what the tokens deserve, also in the middle of an attribute. */
  lemma {:induction false} SeenJudged(k: Trusted, r: Reading)
    ensures ResultOf(Seen(k, r)) == Judge(k, r.tokens)
  {
    TokensAgree(k, r.tokens);
    hide OnTokens, Depth, OpenAt, NameSeen, FirstKey, CString;
  }

  lemma {:induction false} EventsJudged(k: Trusted, events: seq<Event>)
    requires Shaped(false, events)
    ensures ResultOf(OnAll(k, AuthInit().auth, events)) == Judge(k, Tokens(events))
  {
    var r := Reading([], None);
    assert Seen(k, r) == AuthInit().auth;
    ReadAllAgrees(k, r, events);
    SeenJudged(k, ReadAll(r, events));
  }

  // ----------------------------------------------- events out of the parser

  predicate InAttribute(s: State) {
    s == AttributeWaitEq || s == AttributeWaitQuot || s == AttributeValue
  }

  /** What the parser tells for one character has the right shape, unless it is an error. */
  lemma {:induction false} StepShaped(c: Context, ch: char)
    requires c.state != Failed
    ensures var (d, events) := Step(c, ch);
            && (d.state == Failed ==> Error in events)
            && (Error !in events ==> Shaped(InAttribute(c.state), events)
                                     && Inside(InAttribute(c.state), events) == InAttribute(d.state))
  {
    hide Space;
    if c.state == AttributeValue {
      ShapedOne(c.buf);
      hide TextEvents, Shaped, Inside;
      NothingShaped(true);
    } else {
      OneEvent(c, ch);
      var events := Step(c, ch).1;
      if events != [] { assert events[1..] == []; }
    }
  }

  lemma {:induction false} NothingShaped(inside: bool)
    ensures Shaped(inside, []) && Inside(inside, []) == inside
  {
  }

  lemma {:induction false} OneEvent(c: Context, ch: char)
    requires c.state != AttributeValue
    ensures |Step(c, ch).1| <= 1
  {
    hide Space;
  }

  lemma {:induction false} ShapedOne(s: string)
    ensures Shaped(true, TextEvents(s) + [EndAttribute]) && !Inside(true, TextEvents(s) + [EndAttribute])
  {
    assert [EndAttribute][1..] == [] && [Text(s)][1..] == [];
    ShapedJoin(true, TextEvents(s), [EndAttribute]);
  }
  /** A context and the events that led to it from another one. */
  predicate Told(c: Context, r: (Context, seq<Event>)) {
    && (r.0.state == Failed ==> c.state == Failed || Error in r.1)
    && (Error !in r.1 && c.state != Failed ==>
          Shaped(InAttribute(c.state), r.1) && Inside(InAttribute(c.state), r.1) == InAttribute(r.0.state))
  }

  lemma {:induction false} ToldThen(c: Context, r: (Context, seq<Event>), s: (Context, seq<Event>))
    requires Told(c, r) && Told(r.0, s)
    ensures Told(c, (s.0, r.1 + s.1))
  {
    if Error !in r.1 + s.1 && c.state != Failed {
      assert forall e :: e in r.1 || e in s.1 ==> e in r.1 + s.1;
      ShapedJoin(InAttribute(c.state), r.1, s.1);
    }
  }

  lemma {:induction false} FlushTold(c: Context)
    requires InText(c.state)
    ensures Told(c, FlushBuf(c))
  {
    assert c.buf != "" ==> [Text(c.buf)][1..] == [];
  }

  lemma {:induction false} CharTold(c: Context, ch: char)
    requires c.state != Failed
    ensures Told(c, Char(c, ch))
  {
    if |c.buf| > XML_BUF_SIZE - 2 && InText(c.state) {
      FlushTold(c);
      StepShaped(FlushBuf(c).0, ch);
      ToldThen(c, FlushBuf(c), Step(FlushBuf(c).0, ch));
    } else if |c.buf| <= XML_BUF_SIZE - 2 {
      StepShaped(c, ch);
    }
  }

  lemma {:induction false} RunTold(c: Context, data: string)
    ensures Told(c, Run(c, data))
    decreases |data|
  {
    if data != "" && c.state != Failed {
      CharTold(c, data[0]);
      RunTold(Char(c, data[0]).0, data[1..]);
      hide Char, Told;
      ToldThen(c, Char(c, data[0]), Run(Char(c, data[0]).0, data[1..]));
    }
  }

  lemma {:induction false} ProcessTold(c: Context, data: string)
    ensures Told(c, Process(c, data))
  {
    RunTold(c, data);
    hide Run, Told, FlushBuf;
    var r := Run(c, data);
    if InText(r.0.state) {
      FlushTold(r.0);
      ToldThen(c, r, FlushBuf(r.0));
    }
  }

  lemma {:induction false} ProcessAllTold(c: Context, buffers: seq<string>)
    ensures Told(c, ProcessAll(c, buffers))
    decreases |buffers|
  {
    if buffers != [] {
      ProcessTold(c, buffers[0]);
      ProcessAllTold(Process(c, buffers[0]).0, buffers[1..]);
      hide Process, Told;
      ToldThen(c, Process(c, buffers[0]), ProcessAll(Process(c, buffers[0]).0, buffers[1..]));
    }
  }

  // --------------------------------------------------------------- the verdict

  lemma {:induction false} ErrorRemains(k: Trusted, s: Session, buffers: seq<string>)
    requires s.auth.state == ParseError
    ensures AuthAll(k, s, buffers).auth.state == ParseError
    decreases |buffers|
  {
    if buffers != [] {
      ErrorStays(k, s.auth, Process(s.context, buffers[0]).1);
      ErrorRemains(k, AuthProcess(k, s, buffers[0]), buffers[1..]);
    }
  }

  lemma {:induction false} ErrorReported(k: Trusted, s: Session, buffers: seq<string>)
    requires Error in ProcessAll(s.context, buffers).1
    ensures AuthAll(k, s, buffers).auth.state == ParseError
    decreases |buffers|
  {
    var (d, events) := Process(s.context, buffers[0]);
    if Error in events {
      ErrorsSpoilIt(k, s.auth, events);
      ErrorRemains(k, AuthProcess(k, s, buffers[0]), buffers[1..]);
    } else {
      ErrorReported(k, AuthProcess(k, s, buffers[0]), buffers[1..]);
    }
  }

  /** What a list of buffers deserves. */
  function VerdictOn(k: Trusted, events: seq<Event>): Result {
    if Error in events then Unparsable else Judge(k, Tokens(events))
  }

  lemma {:induction false} TokensOfSingle(r: Reading, s: string)
    ensures ReadAll(r, Single(s)) == Read(r, Text(s))
    decreases |s|
  {
    if s == "" {
      assert r.current.Some? ==> r.current.value.value + "" == r.current.value.value;
    } else {
      TokensOfSingle(Read(r, Text(s[..1])), s[1..]);
      assert Single(s)[0] == Text(s[..1]) && Single(s)[1..] == Single(s[1..]);
      hide Single;
      assert ReadAll(r, Single(s)) == ReadAll(Read(r, Text(s[..1])), Single(s[1..]));
      hide ReadAll;
      assert s[..1] + s[1..] == s;
      if r.current.Some? { ConcatAssoc(r.current.value.value, s[..1], s[1..]); }
    }
  }

  lemma {:induction false} ReadAllJoin(r: Reading, e: seq<Event>, f: seq<Event>)
    ensures ReadAll(r, e + f) == ReadAll(ReadAll(r, e), f)
    decreases |e|
  {
    if e == [] {
      assert e + f == f;
    } else {
      assert (e + f)[1..] == e[1..] + f;
      ReadAllJoin(Read(r, e[0]), e[1..], f);
    }
  }

  lemma {:induction false} SingleHasNoError(s: string)
    ensures Error !in Single(s)
  {
    if s != "" { SingleHasNoError(s[1..]); }
  }

  /** How text is cut into pieces makes no difference to the tokens or to the errors. */
  lemma {:induction false} AtomsTokens(r: Reading, events: seq<Event>)
    ensures ReadAll(r, Atoms(events)) == ReadAll(r, events)
    ensures Error in Atoms(events) <==> Error in events
    decreases |events|
  {
    if events != [] {
      AtomsTokens(Read(r, events[0]), events[1..]);
      var first := if events[0].Text? then Single(events[0].characters) else [events[0]];
      ReadAllJoin(r, first, Atoms(events[1..]));
      assert Error in events <==> events[0] == Error || Error in events[1..];
      if events[0].Text? {
        TokensOfSingle(r, events[0].characters);
        SingleHasNoError(events[0].characters);
      } else {
        assert first[1..] == [];
      }
    }
  }

  /**
   For every input and every way of cutting it into buffers, complete or not: an
   error anywhere makes it unparsable; otherwise the result is a pass exactly when
   the first key attribute on packages/package/sigs/cert, in a package already seen
   with the manager's name, is the trusted key, a failure when it is another one,
   and there is none before there is such an attribute.
   */
  lemma {:induction false} AuthenticationIsRight(k: Trusted, buffers: seq<string>)
    ensures ResultOf(AuthAll(k, AuthInit(), buffers).auth) == VerdictOn(k, Process(Init(), Joined(buffers)).1)
  {
    var s := AuthInit();
    var told, whole := ProcessAll(Init(), buffers), Process(Init(), Joined(buffers));
    CutsDoNotMatter(Init(), buffers);
    AtomsTokens(Reading([], None), told.1);
    AtomsTokens(Reading([], None), whole.1);
    ProcessAllTold(Init(), buffers);
    if Error in told.1 {
      ErrorReported(k, s, buffers);
    } else {
      AuthAllEvents(k, s, buffers);
      EventsJudged(k, told.1);
    }
  }

  // ------------------------------------------------------------- whole files

  lemma {:induction false} AttrEventsShaped(attributes: seq<Attr>)
    ensures Shaped(false, AttrEvents(attributes)) && !Inside(false, AttrEvents(attributes))
    decreases |attributes|
  {
    if attributes != [] {
      AttrEventsShaped(attributes[1..]);
      OneShaped(attributes[0]);
      ShapedJoin(false, [StartAttribute(attributes[0].name), Text(attributes[0].value), EndAttribute],
                 AttrEvents(attributes[1..]));
    }
  }

  lemma {:induction false} OneShaped(a: Attr)
    ensures var events := [StartAttribute(a.name), Text(a.value), EndAttribute];
            Shaped(false, events) && !Inside(false, events)
  {
    var events := [StartAttribute(a.name), Text(a.value), EndAttribute];
    var end, rest := [EndAttribute], [Text(a.value), EndAttribute];
    assert end[1..] == [] && rest[1..] == end && events[1..] == rest;
    assert Shaped(true, end) && !Inside(true, end);
    assert Shaped(true, rest) && !Inside(true, rest);
  }

  lemma {:induction false} EventsShaped(nodes: seq<Node>)
    ensures Shaped(false, Events(nodes)) && !Inside(false, Events(nodes))
    decreases nodes
  {
    if nodes != [] {
      EventsShaped(nodes[1..]);
      if nodes[0].Chars? {
        assert [Text(nodes[0].text)][1..] == [];
      } else {
        EventsShaped(nodes[0].content);
        ElementShaped(nodes[0]);
      }
      hide NodeEvents, Shaped, Inside;
      ShapedJoin(false, NodeEvents(nodes[0]), Events(nodes[1..]));
    }
  }

  lemma {:induction false} ElementShaped(node: Node)
    requires node.Element? && Shaped(false, Events(node.content)) && !Inside(false, Events(node.content))
    ensures Shaped(false, NodeEvents(node)) && !Inside(false, NodeEvents(node))
  {
    AttrEventsShaped(node.attributes);
    var start := [StartElement(node.name)];
    var end := [if node.selfClosing then EndEmptyElement else EndElement(node.name)];
    assert start[1..] == [] && end[1..] == [];
    hide Events, AttrEvents;
    ShapedJoin(false, start, AttrEvents(node.attributes));
    ShapedJoin(false, start + AttrEvents(node.attributes), Events(node.content));
    ShapedJoin(false, start + AttrEvents(node.attributes) + Events(node.content), end);
  }

  /** On whole packages files the path says the same as the tree of elements. */
  lemma {:induction false} PathAgreesWithTree(k: Trusted, nodes: seq<Node>)
    ensures Judge(k, Tokens(Events(nodes))) == Verdict(k, nodes)
  {
    EventsShaped(nodes);
    EventsJudged(k, Events(nodes));
    TopNodes(k, AuthInit().auth, nodes);
    hide Events, Keys, Judge, Tokens, OnAll;
    assert Forget(OnAll(k, AuthInit().auth, Events(nodes))) == Forget(After(k, AuthInit().auth, Keys(k, nodes)));
  }
}
