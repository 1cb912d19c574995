/**
 The push parser of bootloader/xml.c, for the part of section 3.1 of XML 1.0 that
 it knows. Text comes out in pieces that depend on the buffers and on where the
 input was cut; one character at a time it does not.
 */
module Xml {
  import opened Bytes

  const XML_BUF_SIZE := 128

  datatype State =
    | Characters | ElementName | ElementOpen | ElementOpenEmpty | AttributeName | AttributeWaitEq | AttributeWaitQuot
    | AttributeValue | ElementClose | ElementCloseName | ProcInstWaitClose | Failed

  /** XML_CONTEXT */
  datatype Context = Context(state: State, buf: string, attrUseApos: bool, isProcInst: bool)

  /** The callbacks. A self-closing element ends without a name. */
  datatype Event =
    | StartElement(name: string) | EndElement(name: string) | EndEmptyElement
    | StartAttribute(name: string) | EndAttribute | Text(characters: string) | Error

  function Init(): Context {
    Context(Characters, "", false, false)
  }

  predicate Space(c: char) {
    c == ' ' || c == '\t' || c == '\r' || c == '\n'
  }

  predicate InText(s: State) {
    s == Characters || s == AttributeValue
  }

  function TextEvents(s: string): seq<Event> {
    if s == "" then [] else [Text(s)]
  }

  /** FlushBuf, in the states in which it is called. */
  function FlushBuf(c: Context): (Context, seq<Event>) {
    var empty := c.(buf := "");
    match c.state
    case Characters => (empty, TextEvents(c.buf))
    case AttributeValue => (empty, TextEvents(c.buf))
    case ElementName =>
      if c.buf == "" then (empty.(state := Failed), [Error])
      else (empty, if c.isProcInst then [] else [StartElement(c.buf)])
    case ElementOpenEmpty => (empty, [EndEmptyElement])
    case AttributeName => (empty, [StartAttribute(c.buf)])
    case ElementCloseName => (empty, [EndElement(c.buf)])
    case _ => (empty, [])
  }

  function Fail(c: Context): (Context, seq<Event>) {
    (c.(state := Failed), [Error])
  }

  /** The caller of FlushBuf sets the next state, also after an error in it. */
  function FlushTo(c: Context, next: State): (Context, seq<Event>) {
    var (d, events) := FlushBuf(c);
    (d.(state := next), events)
  }

  function Push(c: Context, ch: char): (Context, seq<Event>) {
    (c.(buf := c.buf + [ch]), [])
  }

  function EndValue(c: Context): (Context, seq<Event>) {
    var (d, events) := FlushTo(c, ElementOpen);
    (d, events + [EndAttribute])
  }

  /** The switch on the state, once there is room in the buffer. */
  function Step(c: Context, ch: char): (Context, seq<Event>) {
    match c.state
    case Characters =>
      if ch == '<' then
        var (d, events) := FlushTo(c, ElementName);
        (d.(isProcInst := false), events)
      else Push(c, ch)
    case ElementName =>
      if Space(ch) then FlushTo(c, ElementOpen)
      else if ch == '>' then FlushTo(c, Characters)
      else if ch == '/' then
        if c.buf != "" then FlushTo(c, ElementOpenEmpty) else (c.(state := ElementCloseName), [])
      else if ch == '?' && c.buf == "" then (c.(isProcInst := true), [])
      else Push(c, ch)
    case ElementOpen =>
      if Space(ch) then (c, [])
      else if ch == '>' then (if !c.isProcInst then (c.(state := Characters), []) else Fail(c))
      else if ch == '?' then (if c.isProcInst then (c.(state := ProcInstWaitClose), []) else Fail(c))
      else if ch == '/' then (c.(state := ElementOpenEmpty), [])
      else (c.(buf := c.buf + [ch], state := AttributeName), [])
    case ElementOpenEmpty =>
      if Space(ch) then (c, []) else if ch == '>' then FlushTo(c, Characters) else Fail(c)
    case AttributeName =>
      if Space(ch) then FlushTo(c, AttributeWaitEq)
      else if ch == '=' then FlushTo(c, AttributeWaitQuot)
      else Push(c, ch)
    case AttributeWaitEq =>
      if Space(ch) then (c, []) else if ch == '=' then (c.(state := AttributeWaitQuot), []) else Fail(c)
    case AttributeWaitQuot =>
      if Space(ch) then (c, [])
      else if ch == '"' then (c.(state := AttributeValue, attrUseApos := false), [])
      else if ch == '\'' then (c.(state := AttributeValue, attrUseApos := true), [])
      else Fail(c)
    case AttributeValue =>
      if (ch == '"' && !c.attrUseApos) || (ch == '\'' && c.attrUseApos) then EndValue(c) else Push(c, ch)
    case ElementClose =>
      if Space(ch) then (c, []) else if ch == '>' then (c.(state := Characters), []) else Fail(c)
    case ElementCloseName =>
      if Space(ch) then FlushTo(c, ElementClose) else if ch == '>' then FlushTo(c, Characters) else Push(c, ch)
    case ProcInstWaitClose => if ch == '>' then (c.(state := Characters), []) else Fail(c)
    case Failed => (c, [])
  }

  /** One character: text makes room in a full buffer, names do not. */
  function Char(c: Context, ch: char): (Context, seq<Event>) {
    if |c.buf| > XML_BUF_SIZE - 2 then
      if InText(c.state) then
        var (d, events) := FlushBuf(c);
        var (e, more) := Step(d, ch);
        (e, events + more)
      else Fail(c)
    else Step(c, ch)
  }

  function Run(c: Context, data: string): (Context, seq<Event>)
    decreases |data|
  {
    if data == "" || c.state == Failed then (c, [])
    else
      var (d, events) := Char(c, data[0]);
      var (e, more) := Run(d, data[1..]);
      (e, events + more)
  }

  /** XMLProcess: text does not stay in the buffer between two calls. */
  function Process(c: Context, data: string): (Context, seq<Event>) {
    var (d, events) := Run(c, data);
    if InText(d.state) then
      var (e, more) := FlushBuf(d);
      (e, events + more)
    else (d, events)
  }

  // ------------------------------------------------------ text, one at a time

  function Single(s: string): seq<Event> {
    if s == "" then [] else [Text(s[..1])] + Single(s[1..])
  }

  /** Every text event as one event for each of its characters. */
  function Atoms(events: seq<Event>): seq<Event> {
    if events == [] then []
    else (if events[0].Text? then Single(events[0].characters) else [events[0]]) + Atoms(events[1..])
  }

  lemma {:induction false} AtomsJoin(a: seq<Event>, b: seq<Event>)
    ensures Atoms(a + b) == Atoms(a) + Atoms(b)
  {
    if a == [] {
      assert [] + b == b;
    } else {
      assert (a + b)[1..] == a[1..] + b;
      AtomsJoin(a[1..], b);
    }
  }

  lemma {:induction false} SingleJoin(s: string, t: string)
    ensures Single(s + t) == Single(s) + Single(t)
  {
    if s == "" {
      assert s + t == t;
    } else {
      assert (s + t)[1..] == s[1..] + t && (s + t)[..1] == s[..1];
      SingleJoin(s[1..], t);
    }
  }

  lemma AtomsOfText(s: string)
    ensures Atoms(TextEvents(s)) == Single(s)
  {
    if s != "" { assert [Text(s)][1..] == []; }
  }

  /** The text that is waiting in the buffer. */
  function Pending(c: Context): seq<Event> {
    if InText(c.state) then Single(c.buf) else []
  }

  /** The context with that text gone. */
  function Settled(c: Context): Context {
    if InText(c.state) then c.(buf := "") else c
  }

  /** What the context has room for: text always fits, a name only up to its limit. */
  predicate Valid(c: Context) {
    && |c.buf| < XML_BUF_SIZE
    && (c.state in {ElementOpen, ElementOpenEmpty, AttributeWaitEq, AttributeWaitQuot, ElementClose, ProcInstWaitClose}
        ==> c.buf == "")
  }

  lemma CharValid(c: Context, ch: char)
    requires Valid(c)
    ensures Valid(Char(c, ch).0)
  {
  }

  /** What has been told, and what is waiting to be. */
  function Told(r: (Context, seq<Event>)): seq<Event> {
    Atoms(r.1) + Pending(r.0)
  }

  /** The same step with and without waiting text. */
  predicate Agree(before: seq<Event>, r: (Context, seq<Event>), s: (Context, seq<Event>)) {
    Settled(r.0) == Settled(s.0) && Told(r) == before + Told(s)
  }

  lemma ToldThen(a: seq<Event>, r: (Context, seq<Event>))
    ensures Told((r.0, a + r.1)) == Atoms(a) + Told(r)
  {
    AtomsJoin(a, r.1);
    ConcatAssoc(Atoms(a), Atoms(r.1), Pending(r.0));
  }

  lemma Regroup(a: seq<Event>, p: seq<Event>, tail: seq<Event>, before: seq<Event>, b: seq<Event>, q: seq<Event>)
    requires a + p == before + (b + q)
    ensures a + (p + tail) == before + (b + (q + tail))
  {
    ConcatAssoc(a, p, tail);
    ConcatAssoc(before, b + q, tail);
    ConcatAssoc(b, q, tail);
  }

  lemma TextPushed(c: Context, ch: char)
    requires InText(c.state)
    ensures Agree(Pending(c), Push(c, ch), Push(Settled(c), ch))
  {
    hide Single;
    SingleJoin(c.buf, [ch]);
    assert "" + [ch] == [ch];
    var none: seq<Event> := [];
    assert Atoms(none) == none && none + Single([ch]) == Single([ch]);
  }

  /** Text is told before what comes after it. */
  lemma TextFlushed(c: Context, next: Context, last: seq<Event>)
    requires InText(c.state) && Pending(next) == []
    ensures Agree(Pending(c), (next, TextEvents(c.buf) + last), (next, TextEvents("") + last))
  {
    AtomsOfText(c.buf);
    AtomsOfText("");
    hide Single, TextEvents;
    AtomsJoin(TextEvents(c.buf), last);
    AtomsJoin(TextEvents(""), last);
    ConcatAssoc(Single(c.buf), Atoms(last), []);
    SingleNothing();
    assert [] + Atoms(last) == Atoms(last);
  }

  lemma SingleNothing()
    ensures Single("") == []
  {
  }

  /** Waiting text does not change what a character does. */
  lemma TextStep(c: Context, ch: char)
    requires InText(c.state)
    ensures Agree(Pending(c), Step(c, ch), Step(Settled(c), ch))
  {
    hide Atoms, Single, Told, Agree;
    if c.state == Characters && ch == '<' {
      var next := Step(c, ch).0;
      assert Pending(next) == [];
      TextFlushed(c, next, []);
      assert TextEvents(c.buf) + [] == TextEvents(c.buf) && TextEvents("") + [] == TextEvents("");
    } else if c.state == AttributeValue && Step(c, ch).0.state == ElementOpen {
      TextFlushed(c, Step(c, ch).0, [EndAttribute]);
    } else {
      TextPushed(c, ch);
    }
  }

  lemma CharAgrees(c: Context, ch: char)
    requires Valid(c) && c.state != Failed
    ensures Agree(Pending(c), Char(c, ch), Char(Settled(c), ch))
  {
    if !InText(c.state) {
      hide Char, Atoms;
      assert [] + Told(Char(c, ch)) == Told(Char(c, ch));
    } else if |c.buf| > XML_BUF_SIZE - 2 {
      AtomsOfText(c.buf);
      hide Atoms, Single, Step, Told;
      var s := Step(Settled(c), ch);
      assert Char(c, ch) == (s.0, TextEvents(c.buf) + s.1) && Char(Settled(c), ch) == s;
      ToldThen(TextEvents(c.buf), s);
    } else {
      hide Agree, Step;
      TextStep(c, ch);
    }
  }

  /** The parts of a run put together, whatever is waiting in between. */
  lemma AgreeThen(before: seq<Event>, r: (Context, seq<Event>), s: (Context, seq<Event>),
                  r2: (Context, seq<Event>), s2: (Context, seq<Event>), between: (Context, seq<Event>))
    requires Agree(before, r, s)
    requires Agree(Pending(r.0), r2, between) && Agree(Pending(s.0), s2, between)
    ensures Agree(before, (r2.0, r.1 + r2.1), (s2.0, s.1 + s2.1))
  {
    hide Atoms, Pending, Settled;
    ToldThen(r.1, r2);
    ToldThen(s.1, s2);
    Regroup(Atoms(r.1), Pending(r.0), Told(between), before, Atoms(s.1), Pending(s.0));
  }

  lemma SettledValid(c: Context)
    requires Valid(c)
    ensures Valid(Settled(c)) && Settled(Settled(c)) == Settled(c) && Pending(Settled(c)) == []
  {
  }

  lemma {:induction false} RunAgrees(c: Context, data: string)
    requires Valid(c)
    ensures Agree(Pending(c), Run(c, data), Run(Settled(c), data))
    decreases |data|
  {
    if data == "" || c.state == Failed {
      assert [] + Pending(c) == Pending(c) && Pending(c) + ([] + []) == Pending(c);
    } else {
      CharAgrees(c, data[0]);
      CharValid(c, data[0]);
      SettledValid(c);
      CharValid(Settled(c), data[0]);
      var r, s := Char(c, data[0]), Char(Settled(c), data[0]);
      RunAgrees(r.0, data[1..]);
      RunAgrees(s.0, data[1..]);
      AgreeThen(Pending(c), r, s, Run(r.0, data[1..]), Run(s.0, data[1..]), Run(Settled(r.0), data[1..]));
    }
  }

  lemma {:induction false} RunValid(c: Context, data: string)
    requires Valid(c)
    ensures Valid(Run(c, data).0)
    decreases |data|
  {
    if data != "" && c.state != Failed {
      CharValid(c, data[0]);
      RunValid(Char(c, data[0]).0, data[1..]);
    }
  }

  /** A call leaves nothing waiting, and has told everything that a run would have left. */
  lemma ProcessSettles(c: Context, data: string)
    requires Valid(c)
    ensures var (d, events) := Process(c, data); var r := Run(c, data);
            && Valid(d) && d == Settled(r.0) && Pending(d) == []
            && Atoms(events) == Told(r)
  {
    RunValid(c, data);
    var r := Run(c, data);
    AtomsOfText(r.0.buf);
    AtomsJoin(r.1, TextEvents(r.0.buf));
    assert Atoms(r.1) + [] == Atoms(r.1);
  }

  lemma {:induction false} RunJoin(c: Context, a: string, b: string)
    ensures var r := Run(c, a); var s := Run(r.0, b); Run(c, a + b) == (s.0, r.1 + s.1)
    decreases |a|
  {
    if a == "" {
      assert a + b == b && [] + Run(c, b).1 == Run(c, b).1;
    } else if c.state == Failed {
      var none: seq<Event> := [];
      assert none + none == none;
    } else {
      assert (a + b)[1..] == a[1..] + b;
      var d := Char(c, a[0]);
      RunJoin(d.0, a[1..], b);
      var r := Run(d.0, a[1..]);
      assert d.1 + r.1 + Run(r.0, b).1 == d.1 + (r.1 + Run(r.0, b).1);
    }
  }

  /** Two calls tell the same as one. */
  lemma ProcessSplit(c: Context, a: string, b: string)
    requires Valid(c)
    ensures var r := Process(c, a); var s := Process(r.0, b); var whole := Process(c, a + b);
            whole.0 == s.0 && Atoms(whole.1) == Atoms(r.1) + Atoms(s.1)
  {
    hide Atoms, Pending, Run, Process;
    var r := Run(c, a);
    var s := Run(r.0, b);
    RunJoin(c, a, b);
    RunValid(c, a);
    SettledValid(r.0);
    ProcessSettles(c, a);
    ProcessSettles(c, a + b);
    ProcessSettles(Settled(r.0), b);
    RunAgrees(r.0, b);
    ToldThen(r.1, s);
    ConcatAssoc(Atoms(r.1), Pending(r.0), Told(Run(Settled(r.0), b)));
  }

  function ProcessAll(c: Context, buffers: seq<string>): (Context, seq<Event>)
    decreases |buffers|
  {
    if buffers == [] then (c, [])
    else
      var (d, events) := Process(c, buffers[0]);
      var (e, more) := ProcessAll(d, buffers[1..]);
      (e, events + more)
  }

  function Joined(buffers: seq<string>): string {
    if buffers == [] then "" else buffers[0] + Joined(buffers[1..])
  }

  /** Character by character the events are the same for every way of cutting the input. */
  lemma {:induction false} CutsDoNotMatter(c: Context, buffers: seq<string>)
    requires Valid(c) && Settled(c) == c
    ensures ProcessAll(c, buffers).0 == Process(c, Joined(buffers)).0
    ensures Atoms(ProcessAll(c, buffers).1) == Atoms(Process(c, Joined(buffers)).1)
    decreases |buffers|
  {
    if buffers == [] {
    } else {
      ProcessSettles(c, buffers[0]);
      var r := Process(c, buffers[0]);
      CutsDoNotMatter(r.0, buffers[1..]);
      ProcessSplit(c, buffers[0], Joined(buffers[1..]));
      AtomsJoin(r.1, ProcessAll(r.0, buffers[1..]).1);
    }
  }
}
