/**
 The text that the parser accepts, written down as markup: runs of letters, opening and
 self-closing tags with attributes in either kind of quotes, processing instructions,
 closing tags, and white space wherever it may stand. Printed markup is parsed without
 an error and tells exactly its events; text that is no markup is an error or unfinished.
 */
module XmlMarkup {
  import opened Bytes
  import opened Xml
  import opened XmlPrint
  import opened Auth
  import opened AuthPath

  /** An attribute with the white space inside it and behind it. */
  datatype Attribute = Attribute(name: string, beforeEq: string, afterEq: string, apos: bool, value: string, after: string)

  /** How a tag ends; question marks only end processing instructions. */
  datatype Ending = Angle | Slash(space: string) | QuestionMark

  /** Tags with question marks before the name are processing instructions. */
  datatype Markup =
    | Letters(text: string)
    | Tag(marks: nat, name: string, space: string, attributes: seq<Attribute>, ending: Ending)
    | Closing(marks: nat, name: string, space: string)

  function QuoteOf(apos: bool): char {
    if apos then '\'' else '"'
  }

  function AttributeText(a: Attribute): string {
    a.name + (a.beforeEq + "=") + (a.afterEq + [QuoteOf(a.apos)]) + (a.value + [QuoteOf(a.apos)]) + a.after
  }

  function AttributesText(attributes: seq<Attribute>): string {
    if attributes == [] then "" else AttributeText(attributes[0]) + AttributesText(attributes[1..])
  }

  function Marks(n: nat): string {
    if n == 0 then "" else "?" + Marks(n - 1)
  }

  function EndingText(e: Ending): string {
    match e
    case Angle => ">"
    case Slash(space) => "/" + (space + ">")
    case QuestionMark => "?" + ">"
  }

  function MarkupText(m: Markup): string {
    match m
    case Letters(text) => text
    case Tag(marks, name, space, attributes, ending) =>
      "<" + (Marks(marks) + (name + (space + (AttributesText(attributes) + EndingText(ending)))))
    case Closing(marks, name, space) => "<" + (Marks(marks) + ("/" + (name + (space + ">"))))
  }

  function FileText(ms: seq<Markup>): string {
    if ms == [] then "" else MarkupText(ms[0]) + FileText(ms[1..])
  }

  predicate Spaces(s: string) {
    forall i :: 0 <= i < |s| ==> Space(s[i])
  }

  /** The characters that a name can go on with; what ends it depends on where it stands. */
  predicate Fits(s: State, ch: char) {
    && !Space(ch)
    && (s == ElementName ==> ch != '>' && ch != '/')
    && (s == AttributeName ==> ch != '=')
    && (s == ElementCloseName ==> ch != '>')
  }

  predicate AllFit(s: State, name: string) {
    forall i :: 0 <= i < |name| ==> Fits(s, name[i])
  }

  predicate AttributeOk(a: Attribute) {
    && 0 < |a.name| <= XML_BUF_SIZE - 2 && AllFit(AttributeName, a.name[1..])
    && !Space(a.name[0]) && a.name[0] != '>' && a.name[0] != '/' && a.name[0] != '?'
    && Spaces(a.beforeEq) && Spaces(a.afterEq) && Spaces(a.after)
    && QuoteOf(a.apos) !in a.value
  }

  predicate AttributesOk(attributes: seq<Attribute>) {
    forall i :: 0 <= i < |attributes| ==> AttributeOk(attributes[i])
  }

  /** White space must come between a name and attributes; a processing instruction ends in its own way. */
  predicate MarkupOk(m: Markup) {
    match m
    case Letters(text) => '<' !in text
    case Tag(marks, name, space, attributes, ending) =>
      && 0 < |name| <= XML_BUF_SIZE - 2 && name[0] != '?' && AllFit(ElementName, name)
      && Spaces(space) && AttributesOk(attributes) && (attributes != [] ==> space != "")
      && (match ending
          case Angle => marks == 0 || space == ""
          case Slash(more) => Spaces(more)
          case QuestionMark => marks > 0 && space != "")
    case Closing(_, name, space) =>
      |name| <= XML_BUF_SIZE - 2 && AllFit(ElementCloseName, name) && Spaces(space)
  }

  predicate FileOk(ms: seq<Markup>) {
    forall i :: 0 <= i < |ms| ==> MarkupOk(ms[i])
  }

  function AttributesEvents(attributes: seq<Attribute>): seq<Event> {
    if attributes == [] then []
    else
      var a := attributes[0];
      [StartAttribute(a.name), Text(a.value), EndAttribute] + AttributesEvents(attributes[1..])
  }

  /** Processing instructions do not open elements. */
  function MarkupEvents(m: Markup): seq<Event> {
    match m
    case Letters(text) => [Text(text)]
    case Tag(marks, name, _, attributes, ending) =>
      (if marks == 0 then [StartElement(name)] else [])
      + (AttributesEvents(attributes) + (if ending.Slash? then [EndEmptyElement] else []))
    case Closing(_, name, _) => [EndElement(name)]
  }

  function FileEvents(ms: seq<Markup>): seq<Event> {
    if ms == [] then [] else MarkupEvents(ms[0]) + FileEvents(ms[1..])
  }

  /** Between two pieces of markup. */
  predicate Ready(c: Context) {
    c.state == Characters && c.buf == ""
  }

  // ---------------------------------------------------- markup is accepted

  predicate Collecting(s: State) {
    s == ElementName || s == AttributeName || s == ElementCloseName
  }

  predicate Skipping(s: State) {
    s == ElementOpen || s == ElementOpenEmpty || s == AttributeWaitEq || s == AttributeWaitQuot || s == ElementClose
  }

  /** The text leads to the context without telling anything. */
  predicate Silent(c: Context, text: string, d: Context) {
    Tells(c, text, d, [])
  }

  lemma SilentThen(c: Context, s: string, d: Context, t: string, f: Context, g: seq<Event>)
    requires Valid(c) && Silent(c, s, d) && Tells(d, t, f, g)
    ensures Tells(c, s + t, f, g)
  {
    hide Tells;
    Then(c, s, d, [], t, f, g);
    assert [] + g == g;
  }

  lemma ThenSilent(c: Context, s: string, d: Context, e: seq<Event>, t: string, f: Context)
    requires Valid(c) && Tells(c, s, d, e) && Silent(d, t, f)
    ensures Tells(c, s + t, f, e)
  {
    hide Tells;
    Then(c, s, d, e, t, f, []);
    assert e + [] == e;
  }

  lemma SilentChar(c: Context, ch: char, d: Context)
    requires Char(c, ch) == (d, []) && c.state != Failed && (InText(d.state) ==> d.buf == "")
    ensures Silent(c, [ch], d)
  {
    NoAtoms();
    OneChar(c, ch, d, []);
  }

  lemma {:induction false} Collect(c: Context, name: string)
    requires Collecting(c.state) && |c.buf| + |name| <= XML_BUF_SIZE - 2 && AllFit(c.state, name)
    requires c.state == ElementName && c.buf == "" && name != "" ==> name[0] != '?'
    ensures Silent(c, name, c.(buf := c.buf + name))
    decreases |name|
  {
    if name == "" {
      assert c.buf + name == c.buf;
      Nothing(c);
    } else {
      var next := c.(buf := c.buf + [name[0]]);
      assert Fits(c.state, name[0]);
      SilentChar(c, name[0], next);
      hide Process, Space, Fits, Char;
      Collect(next, name[1..]);
      assert [name[0]] + name[1..] == name && c.buf + [name[0]] + name[1..] == c.buf + name;
      SilentThen(c, [name[0]], next, name[1..], c.(buf := c.buf + name), []);
    }
  }

  lemma {:induction false} Skip(c: Context, space: string)
    requires Skipping(c.state) && c.buf == "" && Spaces(space)
    ensures Silent(c, space, c)
    decreases |space|
  {
    if space == "" {
      Nothing(c);
    } else {
      assert Space(space[0]);
      SilentChar(c, space[0], c);
      hide Process, Space, Char;
      Skip(c, space[1..]);
      assert [space[0]] + space[1..] == space;
      SilentThen(c, [space[0]], c, space[1..], c, []);
    }
  }

  lemma {:induction false} SkipMarks(c: Context, n: nat)
    requires c.state == ElementName && c.buf == ""
    ensures Silent(c, Marks(n), c.(isProcInst := c.isProcInst || n > 0))
    decreases n
  {
    if n == 0 {
      Nothing(c);
    } else {
      var next := c.(isProcInst := true);
      SilentChar(c, '?', next);
      hide Process, Char;
      SkipMarks(next, n - 1);
      assert "?" == ['?'];
      SilentThen(c, "?", next, Marks(n - 1), next, []);
    }
  }

  /** Text is told character by character, up to what ends it. */
  lemma {:induction false} TellLetters(c: Context, text: string)
    requires InText(c.state) && c.buf == "" && (if c.state == Characters then '<' else QuoteOf(c.attrUseApos)) !in text
    ensures Tells(c, text, c, Single(text))
    decreases |text|
  {
    if text == "" {
      Nothing(c);
    } else {
      TellLetter(c, text[0]);
      TellLetters(c, text[1..]);
      assert [text[0]] + text[1..] == text && [text[0]] == text[..1];
      hide Process;
      Then(c, [text[0]], c, Single([text[0]]), text[1..], c, Single(text[1..]));
      SingleJoin([text[0]], text[1..]);
    }
  }

  lemma TellLetter(c: Context, ch: char)
    requires InText(c.state) && c.buf == "" && ch != (if c.state == Characters then '<' else QuoteOf(c.attrUseApos))
    ensures Tells(c, [ch], c, Single([ch]))
  {
    var d := c.(buf := [ch]);
    assert "" + [ch] == [ch] && [ch][1..] == "";
    assert Char(c, ch) == (d, []) && Run(d, "") == (d, []);
    var none: seq<Event> := [];
    assert none + none == none;
    assert Run(c, [ch]) == (d, []);
    AtomsOfText([ch]);
    assert [] + TextEvents([ch]) == TextEvents([ch]);
  }

  /** One character that tells one event. */
  lemma EventChar(c: Context, ch: char, d: Context, e: Event)
    requires Char(c, ch) == (d, [e]) && !e.Text? && c.state != Failed && (InText(d.state) ==> d.buf == "")
    ensures Tells(c, [ch], d, [e])
  {
    OneChar(c, ch, d, [e]);
    assert [e][1..] == [] && [e] + Atoms([]) == [e];
  }

  // an attribute

  lemma AttributeNamed(c: Context, a: Attribute)
    requires c.state == ElementOpen && c.buf == "" && AttributeOk(a)
    ensures Silent(c, a.name, c.(state := AttributeName, buf := a.name))
  {
    var ch := a.name[0];
    var first := c.(state := AttributeName, buf := [ch]);
    assert "" + [ch] == [ch] && [ch] + a.name[1..] == a.name;
    SilentChar(c, ch, first);
    hide Process, Char, Space, Fits;
    Collect(first, a.name[1..]);
    SilentThen(c, [ch], first, a.name[1..], c.(state := AttributeName, buf := a.name), []);
  }

  lemma AttributeStarts(c: Context, beforeEq: string)
    requires c.state == AttributeName && |c.buf| <= XML_BUF_SIZE - 2 && Spaces(beforeEq)
    ensures Tells(c, beforeEq + "=", c.(state := AttributeWaitQuot, buf := ""), [StartAttribute(c.buf)])
  {
    var next := c.(state := AttributeWaitQuot, buf := "");
    assert "=" == ['='];
    if beforeEq == "" {
      assert beforeEq + "=" == "=";
      EventChar(c, '=', next, StartAttribute(c.buf));
    } else {
      var wait := c.(state := AttributeWaitEq, buf := "");
      assert Space(beforeEq[0]);
      EventChar(c, beforeEq[0], wait, StartAttribute(c.buf));
      Skip(wait, beforeEq[1..]);
      SilentChar(wait, '=', next);
      hide Process, Char, Space;
      ThenSilent(c, [beforeEq[0]], wait, [StartAttribute(c.buf)], beforeEq[1..], wait);
      assert [beforeEq[0]] + beforeEq[1..] == beforeEq;
      ThenSilent(c, beforeEq, wait, [StartAttribute(c.buf)], "=", next);
    }
  }

  lemma QuoteOpens(c: Context, afterEq: string, apos: bool)
    requires c.state == AttributeWaitQuot && c.buf == "" && Spaces(afterEq)
    ensures Silent(c, afterEq + [QuoteOf(apos)], c.(state := AttributeValue, attrUseApos := apos))
  {
    var next := c.(state := AttributeValue, attrUseApos := apos);
    SilentChar(c, QuoteOf(apos), next);
    Skip(c, afterEq);
    hide Process, Char, Space, QuoteOf;
    SilentThen(c, afterEq, c, [QuoteOf(apos)], next, []);
  }

  lemma ValueTold(c: Context, value: string)
    requires c.state == AttributeValue && c.buf == "" && QuoteOf(c.attrUseApos) !in value
    ensures Tells(c, value + [QuoteOf(c.attrUseApos)], c.(state := ElementOpen), Single(value) + [EndAttribute])
  {
    var next := c.(state := ElementOpen);
    assert TextEvents("") + [EndAttribute] == [EndAttribute];
    EventChar(c, QuoteOf(c.attrUseApos), next, EndAttribute);
    TellLetters(c, value);
    hide Process, Char, Single, QuoteOf;
    Then(c, value, c, Single(value), [QuoteOf(c.attrUseApos)], next, [EndAttribute]);
  }

  lemma AttributeTold(c: Context, a: Attribute)
    requires c.state == ElementOpen && c.buf == "" && AttributeOk(a)
    ensures Tells(c, AttributeText(a), c.(attrUseApos := a.apos), [StartAttribute(a.name)] + (Single(a.value) + [EndAttribute]))
  {
    var named := c.(state := AttributeName, buf := a.name);
    var quot := c.(state := AttributeWaitQuot, buf := "");
    var inside := quot.(state := AttributeValue, attrUseApos := a.apos);
    var open := c.(attrUseApos := a.apos);
    AttributeNamed(c, a);
    AttributeStarts(named, a.beforeEq);
    QuoteOpens(quot, a.afterEq, a.apos);
    ValueTold(inside, a.value);
    Skip(open, a.after);
    hide Process, Single, QuoteOf, Space, Fits;
    var q := [QuoteOf(a.apos)];
    SilentThen(c, a.name, named, a.beforeEq + "=", quot, [StartAttribute(a.name)]);
    ThenSilent(c, a.name + (a.beforeEq + "="), quot, [StartAttribute(a.name)], a.afterEq + q, inside);
    Then(c, a.name + (a.beforeEq + "=") + (a.afterEq + q), inside, [StartAttribute(a.name)],
         a.value + q, open, Single(a.value) + [EndAttribute]);
    ThenSilent(c, a.name + (a.beforeEq + "=") + (a.afterEq + q) + (a.value + q), open,
               [StartAttribute(a.name)] + (Single(a.value) + [EndAttribute]), a.after, open);
  }

  lemma AtomsOfOne(a: Attribute, more: seq<Event>)
    ensures Atoms([StartAttribute(a.name), Text(a.value), EndAttribute] + more)
         == [StartAttribute(a.name)] + (Single(a.value) + [EndAttribute]) + Atoms(more)
  {
    var start, value, end := [StartAttribute(a.name)], [Text(a.value)], [EndAttribute];
    assert start[1..] == [] && value[1..] == [] && end[1..] == [];
    assert Atoms(start) == start && Atoms(value) == Single(a.value) && Atoms(end) == end;
    AtomsJoin(value, end);
    AtomsJoin(start, value + end);
    AtomsJoin(start + (value + end), more);
    assert start + (value + end) == [StartAttribute(a.name), Text(a.value), EndAttribute];
  }

  lemma {:induction false} AttributesTold(c: Context, attributes: seq<Attribute>) returns (d: Context)
    requires c.state == ElementOpen && c.buf == "" && AttributesOk(attributes)
    ensures d == c.(attrUseApos := d.attrUseApos)
    ensures Tells(c, AttributesText(attributes), d, Atoms(AttributesEvents(attributes)))
    decreases |attributes|
  {
    if attributes == [] {
      d := c;
      Nothing(c);
    } else {
      var a := attributes[0];
      AttributeTold(c, a);
      AtomsOfOne(a, AttributesEvents(attributes[1..]));
      hide Process, Single, AttributeText, Atoms, AttributeOk;
      d := AttributesTold(c.(attrUseApos := a.apos), attributes[1..]);
      Then(c, AttributeText(a), c.(attrUseApos := a.apos), [StartAttribute(a.name)] + (Single(a.value) + [EndAttribute]),
           AttributesText(attributes[1..]), d, Atoms(AttributesEvents(attributes[1..])));
    }
  }

  // a tag

  /** The event of a name, which processing instructions do not have. */
  function NameEvents(c: Context): seq<Event> {
    if c.isProcInst then [] else [StartElement(c.buf)]
  }

  /** What ends a name, and the state behind it. */
  predicate NameEnd(ch: char, next: State) {
    (Space(ch) && next == ElementOpen) || (ch == '>' && next == Characters) || (ch == '/' && next == ElementOpenEmpty)
  }

  lemma NameEnds(c: Context, ch: char, next: State)
    requires c.state == ElementName && 0 < |c.buf| <= XML_BUF_SIZE - 2 && NameEnd(ch, next)
    ensures Tells(c, [ch], c.(state := next, buf := ""), NameEvents(c))
  {
    if c.isProcInst {
      SilentChar(c, ch, c.(state := next, buf := ""));
    } else {
      EventChar(c, ch, c.(state := next, buf := ""), StartElement(c.buf));
    }
  }

  lemma SlashEnds(c: Context, space: string)
    requires c.state == ElementOpenEmpty && c.buf == "" && Spaces(space)
    ensures Tells(c, space + ">", c.(state := Characters), [EndEmptyElement])
  {
    assert ">" == ['>'];
    Skip(c, space);
    EventChar(c, '>', c.(state := Characters), EndEmptyElement);
    hide Process, Char, Space;
    SilentThen(c, space, c, ">", c.(state := Characters), [EndEmptyElement]);
  }

  /** The end of a tag with white space behind its name. */
  predicate EndingOk(e: Ending, isProcInst: bool) {
    match e
    case Angle => !isProcInst
    case Slash(space) => Spaces(space)
    case QuestionMark => isProcInst
  }

  function EndingEvents(e: Ending): seq<Event> {
    if e.Slash? then [EndEmptyElement] else []
  }

  lemma EndingTold(c: Context, e: Ending)
    requires c.state == ElementOpen && c.buf == "" && EndingOk(e, c.isProcInst)
    ensures Tells(c, EndingText(e), c.(state := Characters), EndingEvents(e))
  {
    var next := c.(state := Characters);
    assert ">" == ['>'] && "/" == ['/'] && "?" == ['?'];
    match e
    case Angle => SilentChar(c, '>', next);
    case Slash(space) =>
      SilentChar(c, '/', c.(state := ElementOpenEmpty));
      SlashEnds(c.(state := ElementOpenEmpty), space);
      hide Process, Char, Space;
      SilentThen(c, "/", c.(state := ElementOpenEmpty), space + ">", next, [EndEmptyElement]);
    case QuestionMark =>
      SilentChar(c, '?', c.(state := ProcInstWaitClose));
      SilentChar(c.(state := ProcInstWaitClose), '>', next);
      hide Process, Char;
      SilentThen(c, "?", c.(state := ProcInstWaitClose), ">", next, []);
  }

  /** From behind the name to the end of the tag, without white space. */
  lemma BareTagTold(c: Context, e: Ending)
    requires c.state == ElementName && 0 < |c.buf| <= XML_BUF_SIZE - 2
    requires !e.QuestionMark? && (e.Slash? ==> Spaces(e.space))
    ensures Tells(c, EndingText(e), c.(state := Characters, buf := ""), NameEvents(c) + EndingEvents(e))
  {
    var next := c.(state := Characters, buf := "");
    assert ">" == ['>'] && "/" == ['/'];
    if e.Angle? {
      NameEnds(c, '>', Characters);
      assert NameEvents(c) + [] == NameEvents(c);
    } else {
      var slash := c.(state := ElementOpenEmpty, buf := "");
      NameEnds(c, '/', ElementOpenEmpty);
      SlashEnds(slash, e.space);
      hide Process, Char, Space, NameEvents;
      Then(c, "/", slash, NameEvents(c), e.space + ">", next, [EndEmptyElement]);
    }
  }

  /** The same with white space and attributes. */
  lemma SpacedTagTold(c: Context, space: string, attributes: seq<Attribute>, e: Ending) returns (d: Context)
    requires c.state == ElementName && 0 < |c.buf| <= XML_BUF_SIZE - 2
    requires space != "" && Spaces(space) && AttributesOk(attributes) && EndingOk(e, c.isProcInst)
    ensures Ready(d)
    ensures Tells(c, space + (AttributesText(attributes) + EndingText(e)), d,
                  NameEvents(c) + (Atoms(AttributesEvents(attributes)) + EndingEvents(e)))
  {
    var open := c.(state := ElementOpen, buf := "");
    assert Space(space[0]);
    NameEnds(c, space[0], ElementOpen);
    Skip(open, space[1..]);
    hide Process, Char, Space, NameEvents, Atoms, AttributesOk, AttributesText, EndingEvents, EndingText, EndingOk;
    ThenSilent(c, [space[0]], open, NameEvents(c), space[1..], open);
    assert [space[0]] + space[1..] == space;
    var behind := AttributesTold(open, attributes);
    d := behind.(state := Characters);
    EndingTold(behind, e);
    Then(open, AttributesText(attributes), behind, Atoms(AttributesEvents(attributes)), EndingText(e), d, EndingEvents(e));
    Then(c, space, open, NameEvents(c), AttributesText(attributes) + EndingText(e), d,
         Atoms(AttributesEvents(attributes)) + EndingEvents(e));
  }

  /** From the angle bracket to the end of the name. */
  lemma TagNamed(c: Context, marks: nat, name: string)
    requires Ready(c) && 0 < |name| <= XML_BUF_SIZE - 2 && name[0] != '?' && AllFit(ElementName, name)
    ensures Silent(c, "<" + (Marks(marks) + name), Context(ElementName, name, c.attrUseApos, marks > 0))
  {
    var begun := c.(state := ElementName, isProcInst := false);
    var marked, named := begun.(isProcInst := marks > 0), Context(ElementName, name, c.attrUseApos, marks > 0);
    Begins(c);
    SkipMarks(begun, marks);
    Collect(marked, name);
    assert "" + name == name;
    hide Process, Char, Fits;
    SilentThen(begun, Marks(marks), marked, name, named, []);
    SilentThen(c, "<", begun, Marks(marks) + name, named, []);
  }

  lemma Begins(c: Context)
    requires Ready(c)
    ensures Silent(c, "<", c.(state := ElementName, isProcInst := false))
  {
    assert "<" == ['<'] && TextEvents("") == [];
    SilentChar(c, '<', c.(state := ElementName, isProcInst := false));
  }

  lemma AtomsOfTag(m: Markup)
    requires m.Tag?
    ensures Atoms(MarkupEvents(m))
         == (if m.marks == 0 then [StartElement(m.name)] else []) + (Atoms(AttributesEvents(m.attributes)) + EndingEvents(m.ending))
  {
    var start := if m.marks == 0 then [StartElement(m.name)] else [];
    var end := EndingEvents(m.ending);
    assert Atoms(start) == start by { if m.marks == 0 { assert start[1..] == [] && Atoms(start[1..]) == []; } }
    assert Atoms(end) == end by { if m.ending.Slash? { assert end[1..] == [] && Atoms(end[1..]) == []; } }
    hide Atoms, AttributesEvents;
    AtomsJoin(AttributesEvents(m.attributes), end);
    AtomsJoin(start, AttributesEvents(m.attributes) + end);
  }

  lemma TagTold(c: Context, m: Markup) returns (d: Context)
    requires Ready(c) && m.Tag? && MarkupOk(m)
    ensures Ready(d) && Tells(c, MarkupText(m), d, Atoms(MarkupEvents(m)))
  {
    var named := Context(ElementName, m.name, c.attrUseApos, m.marks > 0);
    TagNamed(c, m.marks, m.name);
    AtomsOfTag(m);
    assert NameEvents(named) == if m.marks == 0 then [StartElement(m.name)] else [];
    var front, rest := "<" + (Marks(m.marks) + m.name), m.space + (AttributesText(m.attributes) + EndingText(m.ending));
    assert front + rest == MarkupText(m);
    if m.space != "" {
      hide Process, Space, Fits, Atoms, Marks, AttributesText, MarkupText, EndingText;
      d := SpacedTagTold(named, m.space, m.attributes, m.ending);
    } else {
      d := named.(state := Characters, buf := "");
      assert rest == EndingText(m.ending);
      assert AttributesEvents(m.attributes) == [];
      NoAtoms();
      assert [] + EndingEvents(m.ending) == EndingEvents(m.ending);
      hide Process, Space, Fits, Atoms, Marks, AttributesText, MarkupText, EndingText;
      BareTagTold(named, m.ending);
    }
    SilentThen(c, front, named, rest, d, Atoms(MarkupEvents(m)));
  }

  lemma ClosingTold(c: Context, m: Markup) returns (d: Context)
    requires Ready(c) && m.Closing? && MarkupOk(m)
    ensures Ready(d) && Tells(c, MarkupText(m), d, Atoms(MarkupEvents(m)))
  {
    var begun := c.(state := ElementName, isProcInst := false);
    var marked := begun.(isProcInst := m.marks > 0);
    var slash, named := marked.(state := ElementCloseName), marked.(state := ElementCloseName, buf := m.name);
    d := marked.(state := Characters);
    Begins(c);
    SkipMarks(begun, m.marks);
    assert "/" == ['/'] && "" + m.name == m.name;
    SilentChar(marked, '/', slash);
    Collect(slash, m.name);
    ClosingEnds(named, m.space);
    AtomsOfClosing(m.name);
    hide Process, Char, Space, Fits, Atoms;
    var end, rest := [EndElement(m.name)], m.name + (m.space + ">");
    SilentThen(slash, m.name, named, m.space + ">", d, end);
    SilentThen(marked, "/", slash, rest, d, end);
    SilentThen(begun, Marks(m.marks), marked, "/" + rest, d, end);
    SilentThen(c, "<", begun, Marks(m.marks) + ("/" + rest), d, end);
  }

  lemma AtomsOfClosing(name: string)
    ensures Atoms([EndElement(name)]) == [EndElement(name)]
  {
    assert [EndElement(name)][1..] == [] && Atoms([]) == [];
  }

  lemma ClosingEnds(c: Context, space: string)
    requires c.state == ElementCloseName && |c.buf| <= XML_BUF_SIZE - 2 && Spaces(space)
    ensures Tells(c, space + ">", c.(state := Characters, buf := ""), [EndElement(c.buf)])
  {
    var next := c.(state := Characters, buf := "");
    assert ">" == ['>'];
    if space == "" {
      assert space + ">" == ">";
      EventChar(c, '>', next, EndElement(c.buf));
    } else {
      var close := c.(state := ElementClose, buf := "");
      assert Space(space[0]);
      EventChar(c, space[0], close, EndElement(c.buf));
      Skip(close, space[1..]);
      SilentChar(close, '>', next);
      hide Process, Char, Space;
      ThenSilent(c, [space[0]], close, [EndElement(c.buf)], space[1..], close);
      assert [space[0]] + space[1..] == space;
      ThenSilent(c, space, close, [EndElement(c.buf)], ">", next);
    }
  }

  // files

  lemma MarkupTold(c: Context, m: Markup) returns (d: Context)
    requires Ready(c) && MarkupOk(m)
    ensures Ready(d) && Tells(c, MarkupText(m), d, Atoms(MarkupEvents(m)))
  {
    match m
    case Letters(text) =>
      d := c;
      TellLetters(c, text);
      assert [Text(text)][1..] == [] && Single(text) + [] == Single(text);
    case Tag(_, _, _, _, _) => d := TagTold(c, m);
    case Closing(_, _, _) => d := ClosingTold(c, m);
  }

  /** Printed markup is parsed without an error, and tells its events. */
  lemma {:induction false} MarkupParsed(c: Context, ms: seq<Markup>) returns (d: Context)
    requires Ready(c) && FileOk(ms)
    ensures Ready(d) && Tells(c, FileText(ms), d, Atoms(FileEvents(ms)))
    decreases |ms|
  {
    if ms == [] {
      d := c;
      Nothing(c);
    } else {
      hide Process, Atoms, MarkupText, MarkupEvents, MarkupOk;
      var between := MarkupTold(c, ms[0]);
      d := MarkupParsed(between, ms[1..]);
      AtomsJoin(MarkupEvents(ms[0]), FileEvents(ms[1..]));
      Then(c, MarkupText(ms[0]), between, Atoms(MarkupEvents(ms[0])), FileText(ms[1..]), d, Atoms(FileEvents(ms[1..])));
    }
  }

  lemma {:induction false} NoErrors(ms: seq<Markup>)
    ensures Error !in FileEvents(ms)
  {
    if ms != [] {
      NoErrors(ms[1..]);
      if ms[0].Tag? { NoAttributeErrors(ms[0].attributes); }
    }
  }

  lemma {:induction false} NoAttributeErrors(attributes: seq<Attribute>)
    ensures Error !in AttributesEvents(attributes)
  {
    if attributes != [] { NoAttributeErrors(attributes[1..]); }
  }

  /** A file of markup gets the verdict that the path of its elements deserves, in whatever pieces it comes. */
  lemma MarkupIsJudged(k: Trusted, ms: seq<Markup>, buffers: seq<string>)
    requires FileOk(ms) && Joined(buffers) == FileText(ms)
    ensures Atoms(ProcessAll(Init(), buffers).1) == Atoms(FileEvents(ms))
    ensures ResultOf(AuthAll(k, AuthInit(), buffers).auth) == Judge(k, Tokens(FileEvents(ms)))
  {
    hide *;
    StartsReady();
    var d := MarkupParsed(Init(), ms);
    ToldAtoms(Init(), FileText(ms), d, Atoms(FileEvents(ms)));
    CutsFromStart(buffers);
    AuthenticationIsRight(k, buffers);
    NoErrors(ms);
    SameVerdict(k, Process(Init(), FileText(ms)).1, FileEvents(ms));
  }

  lemma StartsReady()
    ensures Ready(Init())
  {
  }

  lemma ToldAtoms(c: Context, text: string, d: Context, events: seq<Event>)
    requires Tells(c, text, d, events)
    ensures Atoms(Process(c, text).1) == events && Process(c, text).0 == d
  {
  }

  lemma CutsFromStart(buffers: seq<string>)
    ensures Atoms(ProcessAll(Init(), buffers).1) == Atoms(Process(Init(), Joined(buffers)).1)
  {
    hide Process;
    CutsDoNotMatter(Init(), buffers);
  }

  lemma SameVerdict(k: Trusted, told: seq<Event>, events: seq<Event>)
    requires Atoms(told) == Atoms(events) && Error !in events
    ensures VerdictOn(k, told) == Judge(k, Tokens(events))
  {
    AtomsTokens(Reading([], None), told);
    AtomsTokens(Reading([], None), events);
    hide ReadAll, Atoms, Judge;
  }

  // declarations

  predicate OnlyAttributes(ts: seq<Token>) {
    forall i :: 0 <= i < |ts| ==> ts[i].Attribute?
  }

  /** Attributes outside every element change nothing. */
  lemma {:induction false} PrologTokens(k: Trusted, prolog: seq<Token>, ts: seq<Token>)
    requires OnlyAttributes(prolog)
    ensures Depth(prolog + ts) == Depth(ts) && NameSeen(k, prolog + ts) == NameSeen(k, ts)
    ensures FirstKey(k, prolog + ts) == FirstKey(k, ts) && forall d :: OpenAt(prolog + ts, d) == OpenAt(ts, d)
    decreases |prolog| + |ts|
  {
    hide CString;
    var all := prolog + ts;
    if ts != [] {
      var n := |ts| - 1;
      PrologTokens(k, prolog, ts[..n]);
      assert all[..|all| - 1] == prolog + ts[..n] && all[|all| - 1] == ts[n];
    } else if prolog != [] {
      var n := |prolog| - 1;
      PrologTokens(k, prolog[..n], []);
      assert all == prolog && prolog[..n] + [] == prolog[..n];
    }
  }

  lemma {:induction false} ReadBehind(before: seq<Token>, r: Reading, events: seq<Event>)
    ensures ReadAll(Reading(before + r.tokens, r.current), events)
         == Reading(before + ReadAll(r, events).tokens, ReadAll(r, events).current)
    decreases |events|
  {
    if events != [] {
      var next := Read(r, events[0]);
      ReadBehind(before, next, events[1..]);
      if |next.tokens| > |r.tokens| { ConcatAssoc(before, r.tokens, [next.tokens[|r.tokens|]]); }
    }
  }

  lemma {:induction false} AttributesRead(ts: seq<Token>, attributes: seq<Attribute>)
    requires OnlyAttributes(ts)
    ensures var r := ReadAll(Reading(ts, None), AttributesEvents(attributes)); OnlyAttributes(r.tokens) && r.current == None
    decreases |attributes|
  {
    if attributes != [] {
      var a, start := attributes[0], Reading(ts, None);
      var events, more := [StartAttribute(a.name), Text(a.value), EndAttribute], AttributesEvents(attributes[1..]);
      ReadAllJoin(start, events, more);
      OneRead(ts, a);
      AttributesRead(ReadAll(start, events).tokens, attributes[1..]);
    }
  }

  lemma OneRead(ts: seq<Token>, a: Attribute)
    ensures ReadAll(Reading(ts, None), [StartAttribute(a.name), Text(a.value), EndAttribute])
         == Reading(ts + [Token.Attribute(a.name, a.value)], None)
  {
    var r0 := Reading(ts, None);
    var end, rest := [EndAttribute], [Text(a.value), EndAttribute];
    assert end[1..] == [] && rest[1..] == end && [StartAttribute(a.name), Text(a.value), EndAttribute][1..] == rest;
    assert "" + a.value == a.value;
    var r1 := Reading(ts, Some(Attr(a.name, "")));
    var r2 := Reading(ts, Some(Attr(a.name, a.value)));
    assert ReadAll(r2, end) == Reading(ts + [Token.Attribute(a.name, a.value)], None);
    assert ReadAll(r1, rest) == ReadAll(r2, end);
  }

  /** A declaration or another processing instruction at the front does not change the verdict. */
  lemma PrologIsIgnored(k: Trusted, m: Markup, ms: seq<Markup>)
    requires m.Tag? && m.marks > 0 && !m.ending.Slash?
    ensures Judge(k, Tokens(FileEvents([m] + ms))) == Judge(k, Tokens(FileEvents(ms)))
  {
    var start, events := Reading([], None), AttributesEvents(m.attributes);
    assert ([m] + ms)[1..] == ms && [] + (events + []) == events;
    assert FileEvents([m] + ms) == events + FileEvents(ms);
    hide FileEvents, AttributesEvents;
    ReadAllJoin(start, events, FileEvents(ms));
    AttributesRead([], m.attributes);
    var prolog := ReadAll(start, events).tokens;
    assert prolog + [] == prolog;
    ReadBehind(prolog, start, FileEvents(ms));
    PrologTokens(k, prolog, Tokens(FileEvents(ms)));
    hide ReadAll, Read, FirstKey;
  }
}
