/**
 The other direction of module XmlMarkup: whatever the parser takes without an error
 is markup, or the beginning of some. What has been read of an unfinished piece is
 followed character by character.
 */
module XmlAccepted {
  import opened Bytes
  import opened Xml
  import opened XmlMarkup
  import opened Auth
  import XmlPrint
  import AuthPath

  /** A tag up to the white space behind its name or behind its last attribute. */
  datatype Head = Head(marks: nat, name: string, space: string, attributes: seq<Attribute>) {
    predicate Ok() {
      && 0 < |name| <= XML_BUF_SIZE - 2 && name[0] != '?' && AllFit(ElementName, name)
      && Spaces(space) && AttributesOk(attributes) && (attributes != [] ==> space != "")
    }
  }

  /** What has been read of the current piece of markup. */
  datatype Part =
    | Nothing
    | Name(marks: nat, name: string)
    | Open(head: Head)
    | SlashRead(head: Head, space: string)
    | MarkRead(head: Head)
    | AttributeBegun(head: Head, a: string)
    | EqWaited(head: Head, a: string, beforeEq: string)
    | EqRead(head: Head, a: string, beforeEq: string, afterEq: string)
    | Value(head: Head, a: string, beforeEq: string, afterEq: string, apos: bool, value: string)
    | CloseName(marks: nat, name: string)
    | CloseNamed(marks: nat, name: string, space: string)

  function HeadText(h: Head): string {
    "<" + (Marks(h.marks) + (h.name + (h.space + AttributesText(h.attributes))))
  }

  function PartText(p: Part): string {
    match p
    case Nothing => ""
    case Name(marks, name) => "<" + (Marks(marks) + name)
    case Open(h) => HeadText(h)
    case SlashRead(h, space) => HeadText(h) + ("/" + space)
    case MarkRead(h) => HeadText(h) + "?"
    case AttributeBegun(h, a) => HeadText(h) + a
    case EqWaited(h, a, beforeEq) => HeadText(h) + (a + beforeEq)
    case EqRead(h, a, beforeEq, afterEq) => HeadText(h) + (a + (beforeEq + "=") + afterEq)
    case Value(h, a, beforeEq, afterEq, apos, value) =>
      HeadText(h) + (a + (beforeEq + "=") + (afterEq + [QuoteOf(apos)]) + value)
    case CloseName(marks, name) => "<" + (Marks(marks) + ("/" + name))
    case CloseNamed(marks, name, space) => "<" + (Marks(marks) + ("/" + (name + space)))
  }

  predicate AttributeNameOk(name: string) {
    && 0 < |name| < XML_BUF_SIZE && AllFit(AttributeName, name[1..])
    && !Space(name[0]) && name[0] != '>' && name[0] != '/' && name[0] != '?'
  }

  predicate OpenOk(h: Head) {
    h.Ok() && h.space != ""
  }

  predicate PartOk(p: Part) {
    match p
    case Nothing => true
    case Name(_, name) => |name| < XML_BUF_SIZE && AllFit(ElementName, name) && (name != "" ==> name[0] != '?')
    case Open(h) => OpenOk(h)
    case SlashRead(h, space) => h.Ok() && Spaces(space)
    case MarkRead(h) => OpenOk(h) && h.marks > 0
    case AttributeBegun(h, a) => OpenOk(h) && AttributeNameOk(a)
    case EqWaited(h, a, beforeEq) => OpenOk(h) && AttributeNameOk(a) && |a| <= XML_BUF_SIZE - 2 && Spaces(beforeEq)
    case EqRead(h, a, beforeEq, afterEq) =>
      OpenOk(h) && AttributeNameOk(a) && |a| <= XML_BUF_SIZE - 2 && Spaces(beforeEq) && Spaces(afterEq)
    case Value(h, a, beforeEq, afterEq, apos, value) =>
      && OpenOk(h) && AttributeNameOk(a) && |a| <= XML_BUF_SIZE - 2 && Spaces(beforeEq) && Spaces(afterEq)
      && QuoteOf(apos) !in value
    case CloseName(_, name) => |name| < XML_BUF_SIZE && AllFit(ElementCloseName, name)
    case CloseNamed(_, name, space) => |name| <= XML_BUF_SIZE - 2 && AllFit(ElementCloseName, name) && Spaces(space)
  }

  /** The context of a parser that has read the part; text has been told. */
  predicate Follows(c: Context, p: Part) {
    match p
    case Nothing => c.state == Characters && c.buf == ""
    case Name(marks, name) => c.state == ElementName && c.buf == name && c.isProcInst == (marks > 0)
    case Open(h) => c.state == ElementOpen && c.buf == "" && c.isProcInst == (h.marks > 0)
    case SlashRead(_, _) => c.state == ElementOpenEmpty && c.buf == ""
    case MarkRead(_) => c.state == ProcInstWaitClose && c.buf == ""
    case AttributeBegun(h, a) => c.state == AttributeName && c.buf == a && c.isProcInst == (h.marks > 0)
    case EqWaited(h, _, _) => c.state == AttributeWaitEq && c.buf == "" && c.isProcInst == (h.marks > 0)
    case EqRead(h, _, _, _) => c.state == AttributeWaitQuot && c.buf == "" && c.isProcInst == (h.marks > 0)
    case Value(h, _, _, _, apos, _) =>
      c.state == AttributeValue && c.buf == "" && c.isProcInst == (h.marks > 0) && c.attrUseApos == apos
    case CloseName(_, name) => c.state == ElementCloseName && c.buf == name
    case CloseNamed(_, _, _) => c.state == ElementClose && c.buf == ""
  }

  /** One character leads from a part to the next, and may complete a piece of markup. */
  predicate Moves(c: Context, p: Part, ch: char, done: seq<Markup>, q: Part) {
    && Follows(Settled(Step(c, ch).0), q) && PartOk(q) && FileOk(done)
    && PartText(p) + [ch] == FileText(done) + PartText(q)
  }

  // --------------------------------------------------------------- texts

  lemma NoneDone(s: string)
    ensures FileText([]) + s == s && FileOk([])
  {
    assert "" + s == s;
  }

  lemma OneDone(m: Markup)
    ensures FileText([m]) + PartText(Nothing) == MarkupText(m)
    ensures MarkupOk(m) ==> FileOk([m])
  {
    hide MarkupText, MarkupOk;
    assert [m][1..] == [];
    assert MarkupText(m) + "" == MarkupText(m);
  }

  lemma {:induction false} MarksMore(n: nat)
    ensures Marks(n) + "?" == Marks(n + 1)
    decreases n
  {
    if n > 0 {
      MarksMore(n - 1);
      ConcatAssoc("?", Marks(n - 1), "?");
    } else {
      assert Marks(1) == "?" + "" && "" + "?" == "?";
    }
  }

  /** A character behind nested pieces of text. */
  lemma Behind2(a: string, b: string, s: string)
    ensures a + b + s == a + (b + s)
  {
  }

  lemma Behind3(a: string, b: string, c: string, s: string)
    ensures a + (b + c) + s == a + (b + (c + s))
  {
  }

  lemma Behind4(a: string, b: string, c: string, d: string, s: string)
    ensures a + (b + (c + d)) + s == a + (b + (c + (d + s)))
  {
    Behind3(b, c, d, s);
    Behind2(a, b + (c + d), s);
  }

  lemma Behind5(a: string, b: string, c: string, d: string, e: string, s: string)
    ensures a + (b + (c + (d + e))) + s == a + (b + (c + (d + (e + s))))
  {
    Behind4(b, c, d, e, s);
    Behind2(a, b + (c + (d + e)), s);
  }

  lemma TagText(h: Head, e: Ending)
    ensures MarkupText(Tag(h.marks, h.name, h.space, h.attributes, e)) == HeadText(h) + EndingText(e)
  {
    Behind5("<", Marks(h.marks), h.name, h.space, AttributesText(h.attributes), EndingText(e));
  }

  lemma {:induction false} AttributesMore(attributes: seq<Attribute>, a: Attribute)
    ensures AttributesText(attributes + [a]) == AttributesText(attributes) + AttributeText(a)
  {
    hide AttributeText;
    if attributes == [] {
      assert [a][1..] == [] && [] + [a] == [a];
      assert AttributeText(a) + "" == AttributeText(a) && "" + AttributeText(a) == AttributeText(a);
    } else {
      AttributesMore(attributes[1..], a);
      assert (attributes + [a])[1..] == attributes[1..] + [a];
      ConcatAssoc(AttributeText(attributes[0]), AttributesText(attributes[1..]), AttributeText(a));
    }
  }

  /** A head with one more attribute. */
  lemma HeadMore(h: Head, a: Attribute)
    ensures HeadText(h.(attributes := h.attributes + [a])) == HeadText(h) + AttributeText(a)
  {
    AttributesMore(h.attributes, a);
    hide AttributesText, AttributeText;
    Behind5("<", Marks(h.marks), h.name, h.space, AttributesText(h.attributes), AttributeText(a));
  }

  /** White space belongs to what it follows. */
  lemma HeadSpaced(h: Head, ch: char) returns (g: Head)
    requires OpenOk(h) && Space(ch)
    ensures OpenOk(g) && g.marks == h.marks && HeadText(g) == HeadText(h) + [ch]
  {
    if h.attributes == [] {
      g := h.(space := h.space + [ch]);
      assert h.space + "" == h.space && h.space + [ch] + "" == h.space + [ch];
      Behind4("<", Marks(h.marks), h.name, h.space, [ch]);
    } else {
      var n := |h.attributes| - 1;
      var first, last := h.(attributes := h.attributes[..n]), h.attributes[n];
      var more := last.(after := last.after + [ch]);
      g := h.(attributes := h.attributes[..n] + [more]);
      assert h.attributes == h.attributes[..n] + [last];
      HeadMore(first, last);
      HeadMore(first, more);
      SpacedAttribute(last, ch);
      hide HeadText, AttributeText;
      ConcatAssoc(HeadText(first), AttributeText(last), [ch]);
    }
  }

  lemma SpacedAttribute(a: Attribute, ch: char)
    ensures AttributeText(a.(after := a.after + [ch])) == AttributeText(a) + [ch]
    ensures AttributeOk(a) && Space(ch) ==> AttributeOk(a.(after := a.after + [ch]))
  {
    Behind2(a.name + (a.beforeEq + "=") + (a.afterEq + [QuoteOf(a.apos)]) + (a.value + [QuoteOf(a.apos)]), a.after, [ch]);
  }

  // ------------------------------------------------------------ one character

  lemma FromNothing(c: Context, ch: char) returns (done: seq<Markup>, q: Part)
    requires Follows(c, Nothing)
    ensures Moves(c, Nothing, ch, done, q)
  {
    if ch == '<' {
      done, q := [], Name(0, "");
      NoneDone(PartText(q));
      assert "<" + (Marks(0) + "") == "<" && "" + [ch] == "<";
    } else {
      done, q := [Letters([ch])], Nothing;
      OneDone(Letters([ch]));
      assert "" + [ch] == [ch];
    }
  }

  /** Names of elements, by what comes next. */
  predicate InName(c: Context, p: Part, ch: char) {
    p.Name? && Follows(c, p) && PartOk(p) && |c.buf| <= XML_BUF_SIZE - 2 && Error !in Step(c, ch).1
  }

  lemma NameSpaced(c: Context, p: Part, ch: char) returns (q: Part)
    requires InName(c, p, ch)
    requires Space(ch)
    ensures Moves(c, p, ch, [], q)
  {
    var h := Head(p.marks, p.name, [ch], []);
    q := Open(h);
    assert [ch] + "" == [ch];
    Behind3("<", Marks(p.marks), p.name, [ch]);
    NoneDone(PartText(q));
  }

  lemma NameEndsTag(c: Context, p: Part, ch: char) returns (done: seq<Markup>)
    requires InName(c, p, ch)
    requires ch == '>'
    ensures Moves(c, p, ch, done, Nothing)
  {
    var h := Head(p.marks, p.name, "", []);
    done := [Tag(p.marks, p.name, "", [], Angle)];
    HeadBare(h);
    OneDone(done[0]);
    TagText(h, Angle);
    hide HeadText, FileText, Marks, MarkupText;
  }

  lemma NameSlashed(c: Context, p: Part, ch: char) returns (q: Part)
    requires InName(c, p, ch)
    requires ch == '/' && p.name != ""
    ensures Moves(c, p, ch, [], q)
  {
    var h := Head(p.marks, p.name, "", []);
    q := SlashRead(h, "");
    HeadBare(h);
    NoneDone(PartText(q));
    assert "/" + "" == "/" == [ch];
    hide HeadText, FileText, Marks;
  }

  lemma NameClosed(c: Context, p: Part, ch: char)
    requires InName(c, p, ch)
    requires ch == '/' && p.name == ""
    ensures Moves(c, p, ch, [], CloseName(p.marks, ""))
  {
    NoneDone(PartText(CloseName(p.marks, "")));
    assert "/" + "" == "/" == [ch] && Marks(p.marks) + "" == Marks(p.marks);
    Behind2("<", Marks(p.marks), "/");
    hide FileText, Marks;
  }

  lemma NameMarked(c: Context, p: Part, ch: char)
    requires InName(c, p, ch)
    requires ch == '?' && p.name == ""
    ensures Moves(c, p, ch, [], Name(p.marks + 1, ""))
  {
    NoneDone(PartText(Name(p.marks + 1, "")));
    MarksMore(p.marks);
    assert Marks(p.marks) + "" == Marks(p.marks) && Marks(p.marks + 1) + "" == Marks(p.marks + 1) && [ch] == "?";
    Behind2("<", Marks(p.marks), "?");
    hide FileText, Marks;
  }

  lemma NameGrows(c: Context, p: Part, ch: char)
    requires InName(c, p, ch)
    requires Fits(ElementName, ch) && (ch == '?' ==> p.name != "")
    ensures Moves(c, p, ch, [], Name(p.marks, p.name + [ch]))
  {
    NoneDone(PartText(Name(p.marks, p.name + [ch])));
    Behind3("<", Marks(p.marks), p.name, [ch]);
    hide FileText, Marks;
  }

  lemma FromName(c: Context, p: Part, ch: char) returns (done: seq<Markup>, q: Part)
    requires InName(c, p, ch)
    ensures Moves(c, p, ch, done, q)
  {
    assert p.Name?;
    hide InName, Moves;
    done := [];
    if Space(ch) {
      q := NameSpaced(c, p, ch);
    } else if ch == '>' {
      done := NameEndsTag(c, p, ch);
      q := Nothing;
    } else if ch == '/' {
      if p.name == "" {
        q := CloseName(p.marks, "");
        NameClosed(c, p, ch);
      } else {
        q := NameSlashed(c, p, ch);
      }
    } else if ch == '?' && p.name == "" {
      q := Name(p.marks + 1, "");
      NameMarked(c, p, ch);
    } else {
      q := Name(p.marks, p.name + [ch]);
      NameGrows(c, p, ch);
    }
  }

  lemma HeadBare(h: Head)
    requires h.space == "" && h.attributes == []
    ensures HeadText(h) == PartText(Name(h.marks, h.name))
  {
    assert "" + "" == "" && h.name + "" == h.name;
  }

  predicate InOpen(c: Context, p: Part, ch: char) {
    p.Open? && Follows(c, p) && PartOk(p) && Error !in Step(c, ch).1
  }

  lemma OpenSpaced(c: Context, p: Part, ch: char) returns (q: Part)
    requires InOpen(c, p, ch) && Space(ch)
    ensures Moves(c, p, ch, [], q)
  {
    var g := HeadSpaced(p.head, ch);
    q := Open(g);
    NoneDone(PartText(q));
    hide HeadText, FileText, OpenOk;
  }

  lemma OpenEndsTag(c: Context, p: Part, ch: char) returns (done: seq<Markup>)
    requires InOpen(c, p, ch) && ch == '>'
    ensures Moves(c, p, ch, done, Nothing)
  {
    var h := p.head;
    done := [Tag(h.marks, h.name, h.space, h.attributes, Angle)];
    OneDone(done[0]);
    TagText(h, Angle);
    hide HeadText, FileText, MarkupText, AllFit, Space, AttributesOk;
  }

  lemma OpenGoesOn(c: Context, p: Part, ch: char) returns (q: Part)
    requires InOpen(c, p, ch) && !Space(ch) && ch != '>'
    ensures Moves(c, p, ch, [], q)
  {
    var h := p.head;
    q := if ch == '?' then MarkRead(h) else if ch == '/' then SlashRead(h, "") else AttributeBegun(h, [ch]);
    assert "/" + "" == "/" && "" + [ch] == [ch];
    NoneDone(PartText(q));
    hide HeadText, FileText, Head.Ok;
  }

  lemma FromOpen(c: Context, p: Part, ch: char) returns (done: seq<Markup>, q: Part)
    requires InOpen(c, p, ch)
    ensures Moves(c, p, ch, done, q)
  {
    hide InOpen, Moves;
    done := [];
    if Space(ch) {
      q := OpenSpaced(c, p, ch);
    } else if ch == '>' {
      done := OpenEndsTag(c, p, ch);
      q := Nothing;
    } else {
      q := OpenGoesOn(c, p, ch);
    }
  }

  lemma FromSlash(c: Context, p: Part, ch: char) returns (done: seq<Markup>, q: Part)
    requires p.SlashRead? && Follows(c, p) && PartOk(p) && Error !in Step(c, ch).1
    ensures Moves(c, p, ch, done, q)
  {
    var h := p.head;
    if Space(ch) {
      done, q := [], SlashRead(h, p.space + [ch]);
      Behind3(HeadText(h), "/", p.space, [ch]);
      NoneDone(PartText(q));
    } else {
      done, q := [Tag(h.marks, h.name, h.space, h.attributes, Slash(p.space))], Nothing;
      OneDone(done[0]);
      TagText(h, Slash(p.space));
      Behind3(HeadText(h), "/", p.space, ">");
    }
  }

  lemma FromMark(c: Context, p: Part, ch: char) returns (done: seq<Markup>, q: Part)
    requires p.MarkRead? && Follows(c, p) && PartOk(p) && Error !in Step(c, ch).1
    ensures Moves(c, p, ch, done, q)
  {
    var h := p.head;
    done, q := [Tag(h.marks, h.name, h.space, h.attributes, QuestionMark)], Nothing;
    OneDone(done[0]);
    TagText(h, QuestionMark);
    Behind2(HeadText(h), "?", ">");
  }

  lemma FromAttributeName(c: Context, p: Part, ch: char) returns (done: seq<Markup>, q: Part)
    requires p.AttributeBegun? && Follows(c, p) && PartOk(p) && |c.buf| <= XML_BUF_SIZE - 2
    ensures Moves(c, p, ch, done, q)
  {
    hide HeadText, FileText, Head.Ok, AllFit;
    done := [];
    var h := p.head;
    Behind2(HeadText(h), p.a, [ch]);
    if Space(ch) {
      q := EqWaited(h, p.a, [ch]);
    } else if ch == '=' {
      q := EqRead(h, p.a, "", "");
      assert "" + "=" == "=" && p.a + "=" + "" == p.a + "=";
    } else {
      q := AttributeBegun(h, p.a + [ch]);
      AttributeNameLonger(p.a, ch);
    }
    NoneDone(PartText(q));
  }

  lemma AttributeNameLonger(name: string, ch: char)
    requires AttributeNameOk(name) && |name| <= XML_BUF_SIZE - 2 && Fits(AttributeName, ch)
    ensures AttributeNameOk(name + [ch])
  {
    assert (name + [ch])[1..] == name[1..] + [ch];
  }

  lemma FromEqWaited(c: Context, p: Part, ch: char) returns (done: seq<Markup>, q: Part)
    requires p.EqWaited? && Follows(c, p) && PartOk(p) && Error !in Step(c, ch).1
    ensures Moves(c, p, ch, done, q)
  {
    done := [];
    Behind3(HeadText(p.head), p.a, p.beforeEq, [ch]);
    if Space(ch) {
      q := EqWaited(p.head, p.a, p.beforeEq + [ch]);
    } else {
      q := EqRead(p.head, p.a, p.beforeEq, "");
      assert p.a + (p.beforeEq + "=") + "" == p.a + (p.beforeEq + "=");
    }
    NoneDone(PartText(q));
  }

  lemma FromEqRead(c: Context, p: Part, ch: char) returns (done: seq<Markup>, q: Part)
    requires p.EqRead? && Follows(c, p) && PartOk(p) && Error !in Step(c, ch).1
    ensures Moves(c, p, ch, done, q)
  {
    done := [];
    var named := p.a + (p.beforeEq + "=");
    Behind3(HeadText(p.head), named, p.afterEq, [ch]);
    if Space(ch) {
      q := EqRead(p.head, p.a, p.beforeEq, p.afterEq + [ch]);
    } else {
      q := Value(p.head, p.a, p.beforeEq, p.afterEq, ch == '\'', "");
      assert QuoteOf(ch == '\'') == ch;
      assert named + (p.afterEq + [ch]) + "" == named + (p.afterEq + [ch]);
    }
    NoneDone(PartText(q));
  }

  lemma FromValue(c: Context, p: Part, ch: char) returns (done: seq<Markup>, q: Part)
    requires p.Value? && Follows(c, p) && PartOk(p)
    ensures Moves(c, p, ch, done, q)
  {
    done := [];
    var quoted := p.a + (p.beforeEq + "=") + (p.afterEq + [QuoteOf(p.apos)]);
    Behind3(HeadText(p.head), quoted, p.value, [ch]);
    hide HeadText, FileText, AllFit;
    if ch == QuoteOf(p.apos) {
      var a := Attribute(p.a, p.beforeEq, p.afterEq, p.apos, p.value, "");
      q := Open(p.head.(attributes := p.head.attributes + [a]));
      HeadMore(p.head, a);
      assert AttributeText(a) == quoted + (p.value + [ch]) by { assert quoted + (p.value + [ch]) + "" == quoted + (p.value + [ch]); }
      hide AttributeText;
      assert AttributeOk(a);
    } else {
      q := p.(value := p.value + [ch]);
    }
    NoneDone(PartText(q));
  }

  lemma FromCloseName(c: Context, p: Part, ch: char) returns (done: seq<Markup>, q: Part)
    requires p.CloseName? && Follows(c, p) && PartOk(p) && |c.buf| <= XML_BUF_SIZE - 2
    ensures Moves(c, p, ch, done, q)
  {
    hide Marks;
    done := [];
    Behind4("<", Marks(p.marks), "/", p.name, [ch]);
    if Space(ch) {
      q := CloseNamed(p.marks, p.name, [ch]);
    } else if ch == '>' {
      done, q := [Closing(p.marks, p.name, "")], Nothing;
      OneDone(done[0]);
      assert "" + ">" == ">";
    } else {
      q := CloseName(p.marks, p.name + [ch]);
      assert Fits(ElementCloseName, ch);
    }
    NoneDone(PartText(q));
  }

  lemma FromCloseNamed(c: Context, p: Part, ch: char) returns (done: seq<Markup>, q: Part)
    requires p.CloseNamed? && Follows(c, p) && PartOk(p) && Error !in Step(c, ch).1
    ensures Moves(c, p, ch, done, q)
  {
    done := [];
    Behind5("<", Marks(p.marks), "/", p.name, p.space, [ch]);
    if Space(ch) {
      q := CloseNamed(p.marks, p.name, p.space + [ch]);
    } else {
      done, q := [Closing(p.marks, p.name, p.space)], Nothing;
      OneDone(done[0]);
    }
    NoneDone(PartText(q));
  }

  lemma FromAny(c: Context, p: Part, ch: char) returns (done: seq<Markup>, q: Part)
    requires Follows(c, p) && PartOk(p) && |c.buf| <= XML_BUF_SIZE - 2 && Error !in Step(c, ch).1
    ensures Moves(c, p, ch, done, q)
  {
    assert p.Name? ==> InName(c, p, ch);
    assert p.Open? ==> InOpen(c, p, ch);
    hide Moves, Step, Follows, PartOk, InName, InOpen;
    match p
    case Nothing => done, q := FromNothing(c, ch);
    case Name(_, _) => done, q := FromName(c, p, ch);
    case Open(_) => done, q := FromOpen(c, p, ch);
    case SlashRead(_, _) => done, q := FromSlash(c, p, ch);
    case MarkRead(_) => done, q := FromMark(c, p, ch);
    case AttributeBegun(_, _) => done, q := FromAttributeName(c, p, ch);
    case EqWaited(_, _, _) => done, q := FromEqWaited(c, p, ch);
    case EqRead(_, _, _, _) => done, q := FromEqRead(c, p, ch);
    case Value(_, _, _, _, _, _) => done, q := FromValue(c, p, ch);
    case CloseName(_, _) => done, q := FromCloseName(c, p, ch);
    case CloseNamed(_, _, _) => done, q := FromCloseNamed(c, p, ch);
  }

  // ---------------------------------------------------------------- all of it

  /** What the parser does with one character when no text is waiting. */
  lemma OneProcessed(c: Context, p: Part, ch: char)
    requires Follows(c, p) && PartOk(p) && Error !in Process(c, [ch]).1
    ensures |c.buf| <= XML_BUF_SIZE - 2 && Error !in Step(c, ch).1 && Process(c, [ch]).0 == Settled(Step(c, ch).0)
  {
    assert [ch][1..] == "" && c.state != Failed;
    var (d, events) := Char(c, ch);
    assert Run(d, "") == (d, []) && events + [] == events;
    assert Run(c, [ch]) == (d, events);
    hide Step;
    assert forall e :: e in events ==> e in Process(c, [ch]).1;
  }

  /** Without an error, what has been read is always pieces of markup and part of one. */
  lemma {:induction false} AlwaysMarkup(c: Context, p: Part, text: string) returns (ms: seq<Markup>, q: Part)
    requires Follows(c, p) && PartOk(p) && Error !in Process(c, text).1
    ensures Follows(Process(c, text).0, q) && PartOk(q) && FileOk(ms)
    ensures PartText(p) + text == FileText(ms) + PartText(q)
    decreases |text|
  {
    FollowsValid(c, p);
    if text == "" {
      ms, q := [], p;
      NoneDone(PartText(p));
      assert PartText(p) + text == PartText(p);
      XmlPrint.Nothing(c);
    } else {
      var rest := text[1..];
      SplitProcess(c, text);
      OneProcessed(c, p, text[0]);
      hide *;
      var done, r := FromAny(c, p, text[0]);
      MovesOn(c, p, text[0], done, r);
      var more, last := AlwaysMarkup(Process(c, [text[0]]).0, r, rest);
      ms, q := done + more, last;
      FilesJoin(done, more);
      assert [text[0]] + rest == text;
      Regrouped(PartText(p), [text[0]], rest, FileText(done), PartText(r), FileText(more), PartText(last));
    }
  }

  lemma MovesOn(c: Context, p: Part, ch: char, done: seq<Markup>, q: Part)
    requires Moves(c, p, ch, done, q)
    ensures Follows(Settled(Step(c, ch).0), q) && PartOk(q) && FileOk(done) && PartText(p) + [ch] == FileText(done) + PartText(q)
  {
    hide Follows, PartOk, Step;
  }

  lemma Regrouped(p: string, ch: string, rest: string, done: string, r: string, more: string, last: string)
    requires p + ch == done + r && r + rest == more + last
    ensures p + (ch + rest) == done + more + last
  {
    ConcatAssoc(p, ch, rest);
    ConcatAssoc(done, r, rest);
    ConcatAssoc(done, more, last);
  }

  lemma {:induction false} FilesJoin(a: seq<Markup>, b: seq<Markup>)
    ensures FileText(a + b) == FileText(a) + FileText(b)
    ensures FileOk(a) && FileOk(b) ==> FileOk(a + b)
  {
    hide MarkupText, MarkupOk;
    if a == [] {
      assert [] + b == b && "" + FileText(b) == FileText(b);
    } else {
      FilesJoin(a[1..], b);
      assert (a + b)[1..] == a[1..] + b;
      ConcatAssoc(MarkupText(a[0]), FileText(a[1..]), FileText(b));
    }
  }

  lemma FollowsValid(c: Context, p: Part)
    requires Follows(c, p) && PartOk(p)
    ensures Valid(c) && Settled(c) == c
  {
  }

  lemma SplitProcess(c: Context, text: string)
    requires Valid(c) && text != "" && Error !in Process(c, text).1
    ensures var r := Process(c, [text[0]]); var s := Process(r.0, text[1..]);
            Error !in r.1 && Error !in s.1 && Process(c, text).0 == s.0
  {
    hide Process, Atoms;
    assert [text[0]] + text[1..] == text;
    ProcessSplit(c, [text[0]], text[1..]);
    ErrorAtoms(Process(c, text).1);
    ErrorAtoms(Process(c, [text[0]]).1);
    ErrorAtoms(Process(Process(c, [text[0]]).0, text[1..]).1);
  }

  lemma ErrorAtoms(events: seq<Event>)
    ensures Error in Atoms(events) <==> Error in events
  {
    AuthPath.AtomsTokens(AuthPath.Reading([], None), events);
  }

  /** Text is accepted, and complete, exactly when it is printed markup. */
  predicate Accepted(text: string) {
    var r := Process(Init(), text);
    Error !in r.1 && r.0.state == Characters
  }

  lemma AcceptedIsMarkup(text: string) returns (ms: seq<Markup>)
    requires Accepted(text)
    ensures FileOk(ms) && FileText(ms) == text
  {
    var q: Part;
    ms, q := AlwaysMarkup(Init(), Nothing, text);
    hide FileText, Process;
    assert q == Nothing;
    assert "" + text == text && FileText(ms) + "" == FileText(ms);
  }

  lemma MarkupIsAccepted(ms: seq<Markup>)
    requires FileOk(ms)
    ensures Accepted(FileText(ms))
  {
    hide Process, FileText, FileEvents, Atoms;
    var d := MarkupParsed(Init(), ms);
    NoErrors(ms);
    ErrorAtoms(FileEvents(ms));
    ErrorAtoms(Process(Init(), FileText(ms)).1);
  }

  /** What the parser accepts as a whole is printed markup, and nothing else. */
  lemma AcceptedExactly(text: string)
    ensures Accepted(text) <==> exists ms :: FileOk(ms) && FileText(ms) == text
  {
    hide Accepted, FileOk, FileText;
    if Accepted(text) {
      var ms := AcceptedIsMarkup(text);
    }
    forall ms | FileOk(ms) && FileText(ms) == text ensures Accepted(text) {
      MarkupIsAccepted(ms);
    }
  }
}
