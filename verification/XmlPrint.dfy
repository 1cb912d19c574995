/**
 Packages files as text: what is printed is parsed back to the same elements,
 attributes and characters, and so gets the verdict that it deserves.
 */
module XmlPrint {
  import opened Bytes
  import opened Xml
  import opened Auth

  function PrintAttributes(attributes: seq<Attr>): string {
    if attributes == [] then ""
    else " " + attributes[0].name + "=" + "\"" + attributes[0].value + "\"" + PrintAttributes(attributes[1..])
  }

  function PrintNode(node: Node): string {
    match node
    case Chars(text) => text
    case Element(name, attributes, content, selfClosing) =>
      if selfClosing then "<" + name + PrintAttributes(attributes) + "/>"
      else "<" + name + PrintAttributes(attributes) + ">" + Print(content) + "</" + name + ">"
  }

  function Print(nodes: seq<Node>): string {
    if nodes == [] then "" else PrintNode(nodes[0]) + Print(nodes[1..])
  }

  /** Names that the parser takes as they are, and has room for. */
  predicate NameOk(name: string) {
    && 0 < |name| < XML_BUF_SIZE - 1
    && name[0] != '?' && NameChars(name)
  }

  predicate NameChars(name: string) {
    forall i :: 0 <= i < |name| ==> NameChar(name[i])
  }

  predicate NameChar(ch: char) {
    !Space(ch) && ch != '>' && ch != '/' && ch != '='
  }

  predicate AttributesOk(attributes: seq<Attr>) {
    forall i :: 0 <= i < |attributes| ==> NameOk(attributes[i].name) && '"' !in attributes[i].value
  }

  predicate NodeOk(node: Node) {
    match node
    case Chars(text) => '<' !in text
    case Element(name, attributes, content, selfClosing) =>
      NameOk(name) && AttributesOk(attributes) && NodesOk(content) && (selfClosing ==> content == [])
  }

  predicate NodesOk(nodes: seq<Node>) {
    nodes == [] || (NodeOk(nodes[0]) && NodesOk(nodes[1..]))
  }

  // ------------------------------------------------------------------ parsing

  /** A context outside processing instructions, with double quotes. */
  function In(state: State, buf: string): Context {
    Context(state, buf, false, false)
  }

  /** The text leads from one context to the next, telling the events on the way. */
  predicate Tells(c: Context, text: string, d: Context, events: seq<Event>) {
    var (e, told) := Process(c, text);
    e == d && Atoms(told) == events
  }

  lemma {:induction false} Then(c: Context, s: string, d: Context, e: seq<Event>, t: string, f: Context, g: seq<Event>)
    requires Valid(c) && Tells(c, s, d, e) && Tells(d, t, f, g)
    ensures Tells(c, s + t, f, e + g) && Valid(d)
  {
    hide Process, Atoms;
    ProcessSplit(c, s, t);
    ProcessSettles(c, s);
  }

  /** One character that does something and leaves no text behind. */
  lemma {:induction false} OneChar(c: Context, ch: char, d: Context, events: seq<Event>)
    requires Char(c, ch) == (d, events) && c.state != Failed && (InText(d.state) ==> d.buf == "")
    ensures Tells(c, [ch], d, Atoms(events))
  {
    assert [ch][1..] == "";
    assert Run(d, "") == (d, []);
    assert events + [] == events;
  }

  lemma {:induction false} Nothing(c: Context)
    requires Settled(c) == c
    ensures Tells(c, "", c, [])
  {
  }

  lemma {:induction false} CollectChar(state: State, buf: string, ch: char)
    requires state == ElementName || state == AttributeName || state == ElementCloseName
    requires |buf| < XML_BUF_SIZE - 1 && (state == ElementName && buf == "" ==> ch != '?')
    requires NameChar(ch)
    ensures Tells(In(state, buf), [ch], In(state, buf + [ch]), [])
  {
    NoAtoms();
    OneChar(In(state, buf), ch, In(state, buf + [ch]), []);
  }

  lemma FirstAndRest(s: string)
    requires s != ""
    ensures [s[0]] + s[1..] == s
  {
  }

  /** A name, or the rest of one, collects in the buffer. */
  lemma {:induction false} CollectName(state: State, buf: string, name: string)
    requires state == ElementName || state == AttributeName || state == ElementCloseName
    requires |buf| + |name| < XML_BUF_SIZE && (state == ElementName && buf == "" && name != "" ==> name[0] != '?')
    requires NameChars(name)
    ensures Tells(In(state, buf), name, In(state, buf + name), [])
    decreases |name|
  {
    if name == "" {
      assert buf + name == buf;
      Nothing(In(state, buf));
    } else {
      var ch := name[0];
      assert Valid(In(state, buf)) && NameChar(ch) && NameChars(name[1..]);
      hide *;
      CollectChar(state, buf, ch);
      CollectName(state, buf + [ch], name[1..]);
      FirstAndRest(name);
      ConcatAssoc(buf, [ch], name[1..]);
      Then(In(state, buf), [ch], In(state, buf + [ch]), [], name[1..], In(state, buf + name), []);
    }
  }

  /** Text is told character by character. */
  lemma {:induction false} TellText(state: State, text: string)
    requires InText(state) && forall i :: 0 <= i < |text| ==> text[i] != (if state == Characters then '<' else '"')
    ensures Tells(In(state, ""), text, In(state, ""), Single(text))
    decreases |text|
  {
    if text == "" {
      Nothing(In(state, ""));
    } else {
      TellChar(state, text[0]);
      TellText(state, text[1..]);
      assert [text[0]] + text[1..] == text && [text[0]] == text[..1];
      hide Process;
      Then(In(state, ""), [text[0]], In(state, ""), Single([text[0]]), text[1..], In(state, ""), Single(text[1..]));
      SingleJoin([text[0]], text[1..]);
    }
  }

  lemma {:induction false} TellChar(state: State, ch: char)
    requires InText(state) && ch != (if state == Characters then '<' else '"')
    ensures Tells(In(state, ""), [ch], In(state, ""), Single([ch]))
  {
    var c, d := In(state, ""), In(state, [ch]);
    assert "" + [ch] == [ch] && [ch][1..] == "";
    assert Char(c, ch) == (d, []) && Run(d, "") == (d, []);
    var none: seq<Event> := [];
    assert none + none == none;
    assert Run(c, [ch]) == (d, []);
    AtomsOfText([ch]);
    assert [] + TextEvents([ch]) == TextEvents([ch]);
  }

  /** Inside an opening tag, from the end of what came before to the end of an attribute. */
  function PrintAttribute(a: Attr): string {
    a.name + "=" + "\"" + a.value + "\""
  }

  lemma {:induction false} TellAttributeName(name: string)
    requires NameOk(name)
    ensures Tells(In(ElementOpen, ""), name + "=", In(AttributeWaitQuot, ""), [StartAttribute(name)])
  {
    var open, quot, ch := In(ElementOpen, ""), In(AttributeWaitQuot, ""), name[0];
    var first, named := In(AttributeName, [ch]), In(AttributeName, name);
    AttributeNameBegins(name);
    CollectName(AttributeName, [ch], name[1..]);
    assert [ch] + name[1..] == name;
    AttributeNameEnds(name);
    hide Process, Char, NameOk, Atoms;
    assert Valid(open) && Valid(first);
    Then(open, [ch], first, [], name[1..], named, []);
    Then(open, name, named, [], "=", quot, [StartAttribute(name)]);
    assert [] + [StartAttribute(name)] == [StartAttribute(name)];
  }

  lemma {:induction false} AttributeNameBegins(name: string)
    requires NameOk(name)
    ensures Tells(In(ElementOpen, ""), [name[0]], In(AttributeName, [name[0]]), [])
  {
    assert "" + [name[0]] == [name[0]];
    NoAtoms();
    OneChar(In(ElementOpen, ""), name[0], In(AttributeName, [name[0]]), []);
  }

  lemma {:induction false} AttributeNameEnds(name: string)
    requires NameOk(name)
    ensures Tells(In(AttributeName, name), "=", In(AttributeWaitQuot, ""), [StartAttribute(name)])
  {
    assert [StartAttribute(name)][1..] == [] && Atoms([StartAttribute(name)]) == [StartAttribute(name)];
    OneChar(In(AttributeName, name), '=', In(AttributeWaitQuot, ""), [StartAttribute(name)]);
  }

  lemma {:induction false} TellAttributeValue(value: string)
    requires '"' !in value
    ensures Tells(In(AttributeWaitQuot, ""), "\"" + value + "\"", In(ElementOpen, ""), Single(value) + [EndAttribute])
  {
    var quot, inside, open := In(AttributeWaitQuot, ""), In(AttributeValue, ""), In(ElementOpen, "");
    NoAtoms();
    OneChar(quot, '"', inside, []);
    TellText(AttributeValue, value);
    ValueEnds();
    hide Process, Char, Single, Atoms;
    assert "\"" == ['"'] && Valid(quot);
    Then(quot, "\"", inside, [], value, inside, Single(value));
    assert [] + Single(value) == Single(value);
    Then(quot, "\"" + value, inside, Single(value), "\"", open, [EndAttribute]);
  }

  lemma {:induction false} ValueEnds()
    ensures Tells(In(AttributeValue, ""), "\"", In(ElementOpen, ""), [EndAttribute])
  {
    assert "\"" == ['"'] && TextEvents("") + [EndAttribute] == [EndAttribute];
    OneChar(In(AttributeValue, ""), '"', In(ElementOpen, ""), [EndAttribute]);
    assert [EndAttribute][1..] == [] && Atoms([EndAttribute]) == [EndAttribute];
  }

  lemma {:induction false} TellAttribute(a: Attr)
    requires NameOk(a.name) && '"' !in a.value
    ensures Tells(In(ElementOpen, ""), PrintAttribute(a), In(ElementOpen, ""), Atoms(AttrEvents([a])))
  {
    var open, quot := In(ElementOpen, ""), In(AttributeWaitQuot, "");
    var start, value, end := [StartAttribute(a.name)], [Text(a.value)], [EndAttribute];
    TellAttributeName(a.name);
    TellAttributeValue(a.value);
    AtomsOfAttribute(a);
    hide Process, Atoms, Single, NameOk, AttrEvents;
    Then(open, a.name + "=", quot, start, "\"" + a.value + "\"", open, Single(a.value) + end);
    assert a.name + "=" + ("\"" + a.value + "\"") == PrintAttribute(a);
  }

  lemma {:induction false} AtomsOfAttribute(a: Attr)
    ensures Atoms(AttrEvents([a])) == [StartAttribute(a.name)] + (Single(a.value) + [EndAttribute])
  {
    var start, value, end := [StartAttribute(a.name)], [Text(a.value)], [EndAttribute];
    assert [a][1..] == [] && AttrEvents([a]) == start + (value + end);
    AtomsJoin(start, value + end);
    AtomsJoin(value, end);
    assert start[1..] == [] && value[1..] == [] && end[1..] == [];
    assert Atoms(value) == Single(a.value);
  }

  lemma {:induction false} AttrEventsSplit(attributes: seq<Attr>)
    requires attributes != []
    ensures AttrEvents(attributes) == AttrEvents([attributes[0]]) + AttrEvents(attributes[1..])
  {
    assert [attributes[0]][1..] == [];
  }

  lemma {:induction false} PrintAttributesSplit(attributes: seq<Attr>)
    requires attributes != []
    ensures PrintAttributes(attributes) == " " + (PrintAttribute(attributes[0]) + PrintAttributes(attributes[1..]))
  {
  }

  lemma {:induction false} TellAttributes(attributes: seq<Attr>)
    requires AttributesOk(attributes)
    ensures Tells(In(ElementOpen, ""), PrintAttributes(attributes), In(ElementOpen, ""), Atoms(AttrEvents(attributes)))
    decreases |attributes|
  {
    var open := In(ElementOpen, "");
    if attributes == [] {
      Nothing(open);
    } else {
      OneChar(open, ' ', open, []);
      TellMore(attributes);
      hide Process, Char, Atoms, PrintAttributes, AttrEvents;
      PrintAttributesSplit(attributes);
      var rest := PrintAttribute(attributes[0]) + PrintAttributes(attributes[1..]);
      Then(open, " ", open, [], rest, open, Atoms(AttrEvents(attributes)));
      assert [] + Atoms(AttrEvents(attributes)) == Atoms(AttrEvents(attributes));
    }
  }

  /** The attributes behind the first space. */
  lemma {:induction false} TellMore(attributes: seq<Attr>)
    requires AttributesOk(attributes) && attributes != []
    ensures Tells(In(ElementOpen, ""), PrintAttribute(attributes[0]) + PrintAttributes(attributes[1..]),
                  In(ElementOpen, ""), Atoms(AttrEvents(attributes)))
    decreases |attributes|, 0
  {
    var open, first := In(ElementOpen, ""), attributes[0];
    TellAttribute(first);
    TellAttributes(attributes[1..]);
    hide Process, Atoms, PrintAttribute, PrintAttributes, AttrEvents;
    AttrEventsSplit(attributes);
    AtomsJoin(AttrEvents([first]), AttrEvents(attributes[1..]));
    Then(open, PrintAttribute(first), open, Atoms(AttrEvents([first])),
         PrintAttributes(attributes[1..]), open, Atoms(AttrEvents(attributes[1..])));
  }

  /** From the name to behind the attributes, which end in `last`: the end of the tag, or a slash before it. */
  lemma {:induction false} TellTag(name: string, attributes: seq<Attr>, last: char)
    requires NameOk(name) && AttributesOk(attributes) && (last == '>' || last == '/')
    ensures Tells(In(ElementName, name), PrintAttributes(attributes) + [last],
                  if last == '>' then Init() else In(ElementOpenEmpty, ""),
                  [StartElement(name)] + Atoms(AttrEvents(attributes)))
  {
    var named, open, start := In(ElementName, name), In(ElementOpen, ""), [StartElement(name)];
    var next := if last == '>' then Init() else In(ElementOpenEmpty, "");
    AtomsOfStart(name);
    if attributes == [] {
      OneChar(named, last, next, start);
      assert "" + [last] == [last] && start + [] == start;
    } else {
      OneChar(named, ' ', open, start);
      TellMore(attributes);
      OneChar(open, last, next, []);
      PrintAttributesSplit(attributes);
      hide Process, Char, Atoms, PrintAttributes, AttrEvents, NameOk, AttributesOk;
      var rest := PrintAttribute(attributes[0]) + PrintAttributes(attributes[1..]);
      var told := Atoms(AttrEvents(attributes));
      SpaceValid(name);
      Then(named, " ", open, start, rest, open, told);
      NoAtoms();
      Then(named, PrintAttributes(attributes), open, start + told, [last], next, []);
      assert start + told + [] == start + told;
    }
  }

  lemma {:induction false} AtomsOfStart(name: string)
    ensures Atoms([StartElement(name)]) == [StartElement(name)]
  {
    assert [StartElement(name)][1..] == [];
  }

  lemma {:induction false} NoAtoms()
    ensures Atoms([]) == []
  {
  }

  lemma {:induction false} SpaceValid(name: string)
    requires NameOk(name)
    ensures Valid(In(ElementName, name))
  {
  }
  lemma {:induction false} TellOpen(name: string, attributes: seq<Attr>, last: char)
    requires NameOk(name) && AttributesOk(attributes) && (last == '>' || last == '/')
    ensures Tells(Init(), "<" + name + PrintAttributes(attributes) + [last],
                  if last == '>' then Init() else In(ElementOpenEmpty, ""),
                  [StartElement(name)] + Atoms(AttrEvents(attributes)))
  {
    var empty, named := In(ElementName, ""), In(ElementName, name);
    var next := if last == '>' then Init() else In(ElementOpenEmpty, "");
    assert TextEvents("") == [];
    OneChar(Init(), '<', empty, []);
    NoAtoms();
    CollectName(ElementName, "", name);
    assert "" + name == name;
    TellTag(name, attributes, last);
    hide Process, Char, Atoms, PrintAttributes, AttrEvents, NameOk, AttributesOk;
    var told := [StartElement(name)] + Atoms(AttrEvents(attributes));
    Then(Init(), "<", empty, [], name, named, []);
    Then(Init(), "<" + name, named, [], PrintAttributes(attributes) + [last], next, told);
    assert "<" + name + (PrintAttributes(attributes) + [last]) == "<" + name + PrintAttributes(attributes) + [last];
    assert [] + told == told;
  }

  lemma {:induction false} TellEmpty(name: string, attributes: seq<Attr>)
    requires NameOk(name) && AttributesOk(attributes)
    ensures Tells(Init(), "<" + name + PrintAttributes(attributes) + "/>", Init(),
                  [StartElement(name)] + Atoms(AttrEvents(attributes)) + [EndEmptyElement])
  {
    var slash := In(ElementOpenEmpty, "");
    TellOpen(name, attributes, '/');
    OneChar(slash, '>', Init(), [EndEmptyElement]);
    assert [EndEmptyElement][1..] == [] && Atoms([EndEmptyElement]) == [EndEmptyElement];
    hide Process, Char, Atoms, PrintAttributes, AttrEvents, NameOk, AttributesOk;
    var open := "<" + name + PrintAttributes(attributes) + ['/'];
    Then(Init(), open, slash, [StartElement(name)] + Atoms(AttrEvents(attributes)), ">", Init(), [EndEmptyElement]);
    assert open + ">" == "<" + name + PrintAttributes(attributes) + "/>";
  }

  lemma {:induction false} TellClose(name: string)
    requires NameOk(name)
    ensures Tells(Init(), "</" + name + ">", Init(), [EndElement(name)])
  {
    var empty, close, named := In(ElementName, ""), In(ElementCloseName, ""), In(ElementCloseName, name);
    assert TextEvents("") == [];
    OneChar(Init(), '<', empty, []);
    OneChar(empty, '/', close, []);
    NoAtoms();
    CollectName(ElementCloseName, "", name);
    assert "" + name == name;
    OneChar(named, '>', Init(), [EndElement(name)]);
    assert Atoms([EndElement(name)]) == [EndElement(name)] + Atoms([]) == [EndElement(name)];
    hide Process, Char, Atoms, NameOk;
    Then(Init(), "<", empty, [], "/", close, []);
    assert "<" + "/" == "</";
    Then(Init(), "</", close, [], name, named, []);
    Then(Init(), "</" + name, named, [], ">", Init(), [EndElement(name)]);
    assert [] + [EndElement(name)] == [EndElement(name)];
  }

  lemma {:induction false} TellNode(node: Node)
    requires NodeOk(node)
    ensures Tells(Init(), PrintNode(node), Init(), Atoms(NodeEvents(node)))
    decreases node
  {
    match node
    case Chars(text) =>
      TellText(Characters, text);
      assert [Text(text)][1..] == [] && Single(text) + [] == Single(text);
    case Element(name, attributes, content, selfClosing) =>
      AtomsOfElement(node);
      if selfClosing {
        TellEmpty(name, attributes);
        var first := [StartElement(name)] + Atoms(AttrEvents(attributes));
        NoAtoms();
        assert Events(content) == [] && first + [] == first;
      } else {
        TellNodes(content);
        TellElement(node);
      }
  }

  lemma {:induction false} TellElement(node: Node)
    requires node.Element? && NodeOk(node) && !node.selfClosing
    requires Tells(Init(), Print(node.content), Init(), Atoms(Events(node.content)))
    ensures Tells(Init(), PrintNode(node), Init(), Atoms(NodeEvents(node)))
  {
    var name, content := node.name, node.content;
    TellOpen(name, node.attributes, '>');
    TellClose(name);
    AtomsOfElement(node);
    hide Process, Atoms, Print, PrintAttributes, AttrEvents, Events, NameOk, AttributesOk, NodesOk;
    var open, close := "<" + name + PrintAttributes(node.attributes) + ['>'], "</" + name + ">";
    var first := [StartElement(name)] + Atoms(AttrEvents(node.attributes));
    Then(Init(), open, Init(), first, Print(content), Init(), Atoms(Events(content)));
    Then(Init(), open + Print(content), Init(), first + Atoms(Events(content)), close, Init(), [EndElement(name)]);
    assert open + Print(content) + close == PrintNode(node);
  }

  lemma {:induction false} AtomsOfElement(node: Node)
    requires node.Element?
    ensures Atoms(NodeEvents(node))
         == [StartElement(node.name)] + Atoms(AttrEvents(node.attributes)) + Atoms(Events(node.content))
            + [if node.selfClosing then EndEmptyElement else EndElement(node.name)]
  {
    var start, end := [StartElement(node.name)], [if node.selfClosing then EndEmptyElement else EndElement(node.name)];
    assert Atoms(start) == start + Atoms([]) == start && Atoms(end) == end + Atoms([]) == end;
    hide Atoms, AttrEvents, Events;
    AtomsJoin(start + AttrEvents(node.attributes) + Events(node.content), end);
    AtomsJoin(start + AttrEvents(node.attributes), Events(node.content));
    AtomsJoin(start, AttrEvents(node.attributes));
  }

  lemma {:induction false} TellNodes(nodes: seq<Node>)
    requires NodesOk(nodes)
    ensures Tells(Init(), Print(nodes), Init(), Atoms(Events(nodes)))
    decreases nodes
  {
    if nodes == [] {
      Nothing(Init());
    } else {
      TellNode(nodes[0]);
      TellNodes(nodes[1..]);
      hide Process, Atoms, PrintNode, NodeEvents, NodeOk;
      AtomsJoin(NodeEvents(nodes[0]), Events(nodes[1..]));
      Then(Init(), PrintNode(nodes[0]), Init(), Atoms(NodeEvents(nodes[0])),
           Print(nodes[1..]), Init(), Atoms(Events(nodes[1..])));
    }
  }

  /** A printed packages file is parsed back, and gets the verdict that it deserves, in whatever pieces it comes. */
  lemma {:induction false} PrintedFileIsJudged(k: Trusted, nodes: seq<Node>, buffers: seq<string>)
    requires NodesOk(nodes) && Joined(buffers) == Print(nodes)
    ensures Process(Init(), Print(nodes)).0 == Init()
    ensures Atoms(ProcessAll(Init(), buffers).1) == Atoms(Events(nodes))
    ensures ResultOf(AuthAll(k, AuthInit(), buffers).auth) == Verdict(k, nodes)
  {
    hide Process, Atoms, Print, Events, NodesOk, Verdict;
    TellNodes(nodes);
    CutsDoNotMatter(Init(), buffers);
    FileIsJudged(k, buffers, nodes);
  }

  // ------------------------------------------------------------- a typical file

  /** A name without a null character is seen as it is. */
  lemma {:induction false} PlainName(name: string)
    requires '\0' !in name
    ensures CString(name) == name
  {
    if name != "" {
      PlainName(name[1..]);
      assert [name[0]] + name[1..] == name;
    }
  }

  /** A name is seen up to its first null character. */
  lemma {:induction false} CutName(name: string, more: string)
    requires '\0' !in name
    ensures CString(name + "\0" + more) == name
  {
    var s := name + "\0" + more;
    if name == "" {
      assert s[0] == '\0';
    } else {
      CutName(name[1..], more);
      assert s[0] == name[0] && s[1..] == name[1..] + "\0" + more;
      assert [name[0]] + name[1..] == name;
    }
  }

  /** What the package manager of a phone writes about one package. */
  function Sigs(key: string): Node {
    Element("sigs", [], [Element("cert", [Attr("key", key)], [], true)], false)
  }

  function Package(name: string, key: string): Node {
    Element("package", [Attr("name", name)], [Sigs(key)], false)
  }

  function PackagesFile(name: string, key: string): seq<Node> {
    [Element("packages", [], [Package(name, key)], false)]
  }

  lemma OneValue(a: Attr)
    requires '\0' !in a.name
    ensures Values([a], a.name) == [a.value]
  {
    PlainName(a.name);
    assert [a][1..] == [] && [a.value] + [] == [a.value];
  }

  lemma SigsKeys(key: string)
    ensures KeysInPackage([Sigs(key)]) == [key]
  {
    PlainName("cert");
    PlainName("sigs");
    OneValue(Attr("key", key));
    hide CString, Values;
    var cert := Sigs(key).content[0];
    assert [cert][1..] == [] && [Sigs(key)][1..] == [] && [key] + [] == [key];
    assert KeysInSigs([cert]) == [key];
  }

  lemma PackageKeys(k: Trusted, name: string, key: string)
    ensures KeysInPackages(k, [Package(name, key)]) == if name == k.manager then [key] else []
  {
    PlainName("package");
    OneValue(Attr("name", name));
    SigsKeys(key);
    OnlyPackage(k, Package(name, key), name, key);
  }

  lemma OnlyPackage(k: Trusted, p: Node, name: string, key: string)
    requires IsElement(p, "package") && Values(p.attributes, "name") == [name] && KeysInPackage(p.content) == [key]
    ensures KeysInPackages(k, [p]) == if name == k.manager then [key] else []
  {
    hide IsElement, Values, KeysInPackage;
    assert [p][1..] == [] && [key] + [] == [key];
    assert KeysInPackages(k, []) == [];
  }

  lemma FileVerdict(k: Trusted, name: string, key: string)
    ensures Verdict(k, PackagesFile(name, key)) == if name != k.manager then Busy else if key == k.key then Pass else Fail
  {
    PackageKeys(k, name, key);
    PlainName("packages");
    OnlyFile(k, PackagesFile(name, key)[0]);
    hide CString, KeysInPackages, Keys, Package;
  }

  lemma OnlyFile(k: Trusted, p: Node)
    requires IsElement(p, "packages")
    ensures Keys(k, [p]) == KeysInPackages(k, p.content)
  {
    var keys := KeysInPackages(k, p.content);
    hide IsElement, KeysInPackages;
    assert [p][1..] == [] && keys + [] == keys;
    assert Keys(k, []) == [];
  }

  lemma FilePrints(name: string, key: string)
    requires '"' !in name && '"' !in key
    ensures NodesOk(PackagesFile(name, key))
    ensures Print(PackagesFile(name, key)) == "<packages>" + PackageText(name, key) + "</packages>"
  {
    var file := PackagesFile(name, key);
    PackagePrints(name, key);
    LiteralOk("packages");
    PrintsOne(Package(name, key));
    PrintsOne(file[0]);
    Wrapped("packages", PackageText(name, key));
    hide Package, PackageText, NameOk;
    assert PrintAttributes([]) == "";
  }

  function SigsText(key: string): string {
    "<sigs>" + ("<cert key=\"" + key + "\"/>") + "</sigs>"
  }

  function PackageText(name: string, key: string): string {
    "<package name=\"" + name + "\">" + SigsText(key) + "</package>"
  }

  lemma LiteralOk(name: string)
    requires name in {"packages", "package", "sigs", "cert", "name", "key"}
    ensures NameOk(name)
  {
  }

  lemma Wrapped(name: string, text: string)
    ensures "<" + name + "" + ">" + text + "</" + name + ">" == "<" + name + ">" + text + ("</" + name + ">")
  {
  }

  lemma SigsPrints(key: string)
    requires '"' !in key
    ensures NodeOk(Sigs(key)) && PrintNode(Sigs(key)) == SigsText(key)
  {
    CertPrints(key);
    LiteralOk("sigs");
    PrintsOne(Sigs(key).content[0]);
    Wrapped("sigs", "<cert key=\"" + key + "\"/>");
    hide NameOk;
    assert PrintAttributes([]) == "";
  }

  lemma CertPrints(key: string)
    requires '"' !in key
    ensures var cert := Sigs(key).content[0]; NodeOk(cert) && PrintNode(cert) == "<cert key=\"" + key + "\"/>"
  {
    LiteralOk("cert");
    LiteralOk("key");
    PrintsAttribute(Attr("key", key));
    hide NameOk, PrintAttributes;
    assert "<" + "cert" + (" " + "key" + "=" + "\"" + key + "\"") + "/>" == "<cert key=\"" + key + "\"/>";
  }

  lemma PackagePrints(name: string, key: string)
    requires '"' !in name && '"' !in key
    ensures NodeOk(Package(name, key)) && PrintNode(Package(name, key)) == PackageText(name, key)
  {
    LiteralOk("package");
    LiteralOk("name");
    SigsPrints(key);
    PrintsOne(Sigs(key));
    PrintsAttribute(Attr("name", name));
    hide NameOk, Sigs, SigsText;
    assert "<" + "package" + (" " + "name" + "=" + "\"" + name + "\"") + ">" == "<package name=\"" + name + "\">";
    assert "</" + "package" + ">" == "</package>";
    ConcatAssoc("<package name=\"" + name + "\">" + SigsText(key), "</" + "package", ">");
    ConcatAssoc("<package name=\"" + name + "\">" + SigsText(key), "</", "package");
  }

  lemma PrintsOne(node: Node)
    ensures Print([node]) == PrintNode(node)
    ensures NodesOk([node]) == NodeOk(node)
  {
    hide PrintNode, NodeOk;
    assert [node][1..] == [] && PrintNode(node) + "" == PrintNode(node);
  }

  lemma PrintsAttribute(a: Attr)
    ensures PrintAttributes([a]) == " " + a.name + "=" + "\"" + a.value + "\""
  {
    assert [a][1..] == [];
    var text := " " + a.name + "=" + "\"" + a.value + "\"";
    assert text + "" == text;
  }

  /** Letter by letter: a file about one package passes exactly with the manager's name and the trusted key. */
  lemma TypicalFile(k: Trusted, name: string, key: string, buffers: seq<string>)
    requires '"' !in name && '"' !in key
    requires Joined(buffers) == "<packages>" + PackageText(name, key) + "</packages>"
    ensures ResultOf(AuthAll(k, AuthInit(), buffers).auth)
         == if name != k.manager then Busy else if key == k.key then Pass else Fail
  {
    hide *;
    FilePrints(name, key);
    FileVerdict(k, name, key);
    PrintedFileIsJudged(k, PackagesFile(name, key), buffers);
  }
}
