/**
 Authentication of the manager application (bootloader/auth.c): an automaton over
 the events of a packages file that looks for the key of the first certificate of
 the package with the manager's name.
 */
module Auth {
  import opened Bytes
  import opened Xml

  /** The name and the key that are built into the bootloader. */
  datatype Trusted = Trusted(manager: string, key: string)

  datatype Phase =
    | DonePass | DoneFail | ParseError | Top | Packages | Package
    | NameAttr(got: string) | Sigs | Cert | CertKey(cursor: nat) | CertFail

  datatype Auth = Auth(state: Phase, depth: int, nameMatches: bool) {
    /** The two buffers and cursors are within their bounds. */
    predicate Valid(k: Trusted) {
      && (state.NameAttr? ==> |state.got| <= |k.manager| + 1)
      && (state.CertKey? ==> state.cursor <= |k.key|)
    }
  }

  /** A name as the string functions see it, up to its first null character. */
  function CString(s: string): string {
    if s == "" || s[0] == '\0' then "" else [s[0]] + CString(s[1..])
  }

  function OnStartElement(a: Auth, name: string): Auth {
    var n := CString(name);
    var b := if a.state == Top && a.depth == 0 && n == "packages" then a.(state := Packages)
             else if a.state == Packages && a.depth == 1 && n == "package" then a.(state := Package, nameMatches := false)
             else if a.state == Package && a.depth == 2 && a.nameMatches && n == "sigs" then a.(state := Sigs)
             else if a.state == Sigs && a.depth == 3 && a.nameMatches && n == "cert" then a.(state := Cert)
             else a;
    b.(depth := a.depth + 1)
  }

  function OnEndElement(a: Auth): Auth {
    var b := if a.state == Packages && a.depth == 1 then a.(state := Top)
             else if a.state == Package && a.depth == 2 then a.(state := Packages)
             else if a.state == Sigs && a.depth == 3 then a.(state := Package)
             else if a.state == Cert && a.depth == 4 then a.(state := Sigs)
             else a;
    b.(depth := a.depth - 1)
  }

  function OnStartAttribute(a: Auth, name: string): Auth {
    var n := CString(name);
    var b := if a.state == Package && a.depth == 2 && n == "name" then a.(state := NameAttr(""))
             else if a.state == Cert && a.depth == 4 && n == "key" then a.(state := CertKey(0))
             else a;
    b.(depth := a.depth + 1)
  }

  function OnEndAttribute(k: Trusted, a: Auth): Auth {
    var b := a.(depth := a.depth - 1);
    match a.state
    case NameAttr(got) => b.(state := Package, nameMatches := a.nameMatches || got == k.manager)
    case CertKey(cursor) => b.(state := if cursor == |k.key| then DonePass else DoneFail)
    case CertFail => b.(state := DoneFail)
    case _ => b
  }

  function OnCharacters(k: Trusted, a: Auth, s: string): Auth {
    match a.state
    case NameAttr(got) =>
      if |got| + |s| <= |k.manager| + 1 then a.(state := NameAttr(got + s)) else a.(state := Package)
    case CertKey(cursor) =>
      if |s| + cursor < |k.key| + 1 && k.key[cursor..cursor + |s|] == s then a.(state := CertKey(cursor + |s|))
      else a.(state := CertFail)
    case _ => a
  }

  function On(k: Trusted, a: Auth, e: Event): Auth {
    match e
    case StartElement(name) => OnStartElement(a, name)
    case EndElement(_) => OnEndElement(a)
    case EndEmptyElement => OnEndElement(a)
    case StartAttribute(name) => OnStartAttribute(a, name)
    case EndAttribute => OnEndAttribute(k, a)
    case Text(s) => OnCharacters(k, a, s)
    case Error => a.(state := ParseError)
  }

  function OnAll(k: Trusted, a: Auth, events: seq<Event>): Auth
    decreases |events|
  {
    if events == [] then a else OnAll(k, On(k, a, events[0]), events[1..])
  }

  // ------------------------------------------------------------ pieces of text

  lemma {:induction false} OnAllJoin(k: Trusted, a: Auth, e: seq<Event>, f: seq<Event>)
    ensures OnAll(k, a, e + f) == OnAll(k, OnAll(k, a, e), f)
    decreases |e|
  {
    if e == [] {
      assert e + f == f;
    } else {
      assert (e + f)[1..] == e[1..] + f;
      OnAllJoin(k, On(k, a, e[0]), e[1..], f);
    }
  }

  lemma OnValid(k: Trusted, a: Auth, e: Event)
    requires a.Valid(k)
    ensures On(k, a, e).Valid(k)
  {
  }

  lemma Slices(key: string, from: nat, s: string, t: string)
    requires from + |s| + |t| <= |key|
    ensures key[from..from + |s| + |t|] == s + t
       <==> key[from..from + |s|] == s && key[from + |s|..from + |s| + |t|] == t
  {
    var whole := key[from..from + |s| + |t|];
    assert whole[..|s|] == key[from..from + |s|] && whole[|s|..] == key[from + |s|..from + |s| + |t|];
    assert whole == whole[..|s|] + whole[|s|..];
    assert (s + t)[..|s|] == s && (s + t)[|s|..] == t;
  }

  lemma TwoPieces(k: Trusted, a: Auth, s: string, t: string)
    requires a.Valid(k)
    ensures OnCharacters(k, OnCharacters(k, a, s), t) == OnCharacters(k, a, s + t)
  {
    if a.state.NameAttr? {
      assert a.state.got + s + t == a.state.got + (s + t);
    } else if a.state.CertKey? {
      var cursor := a.state.cursor;
      if cursor + |s| + |t| <= |k.key| { Slices(k.key, cursor, s, t); }
      assert cursor + |s + t| == cursor + |s| + |t|;
    }
  }

  lemma {:induction false} OnSingle(k: Trusted, a: Auth, s: string)
    requires a.Valid(k)
    ensures OnAll(k, a, Single(s)) == OnCharacters(k, a, s)
    decreases |s|
  {
    if s == "" {
      assert a.state.NameAttr? ==> a.state.got + s == a.state.got;
    } else {
      var first := OnCharacters(k, a, s[..1]);
      OnValid(k, a, Text(s[..1]));
      assert Single(s)[0] == Text(s[..1]) && Single(s)[1..] == Single(s[1..]);
      OnSingle(k, first, s[1..]);
      TwoPieces(k, a, s[..1], s[1..]);
      assert s[..1] + s[1..] == s;
    }
  }

  /** The automaton does not care how text is cut into pieces. */
  lemma {:induction false} OnAtoms(k: Trusted, a: Auth, events: seq<Event>)
    requires a.Valid(k)
    ensures OnAll(k, a, Atoms(events)) == OnAll(k, a, events)
    decreases |events|
  {
    if events != [] {
      OnValid(k, a, events[0]);
      OnAtoms(k, On(k, a, events[0]), events[1..]);
      if events[0].Text? {
        OnSingle(k, a, events[0].characters);
        OnAllJoin(k, a, Single(events[0].characters), Atoms(events[1..]));
      } else {
        assert ([events[0]] + Atoms(events[1..]))[1..] == Atoms(events[1..]);
      }
    }
  }

  // ----------------------------------------------------------- packages files

  datatype Attr = Attr(name: string, value: string)

  /** A self-closing element has no content and ends without a closing tag. */
  datatype Node =
    | Element(name: string, attributes: seq<Attr>, content: seq<Node>, selfClosing: bool)
    | Chars(text: string)

  function AttrEvents(attributes: seq<Attr>): seq<Event> {
    if attributes == [] then []
    else
      var a := attributes[0];
      [StartAttribute(a.name), Text(a.value), EndAttribute] + AttrEvents(attributes[1..])
  }

  function NodeEvents(node: Node): seq<Event> {
    match node
    case Chars(text) => [Text(text)]
    case Element(name, attributes, content, selfClosing) =>
      [StartElement(name)] + AttrEvents(attributes) + Events(content)
      + [if selfClosing then EndEmptyElement else EndElement(name)]
  }

  function Events(nodes: seq<Node>): seq<Event> {
    if nodes == [] then [] else NodeEvents(nodes[0]) + Events(nodes[1..])
  }

  /** The values of the attributes with a name. */
  function Values(attributes: seq<Attr>, name: string): seq<string> {
    if attributes == [] then []
    else (if CString(attributes[0].name) == name then [attributes[0].value] else []) + Values(attributes[1..], name)
  }

  predicate IsElement(node: Node, name: string) {
    node.Element? && CString(node.name) == name
  }

  /** The keys in the certificates of a list of signatures. */
  function KeysInSigs(nodes: seq<Node>): seq<string> {
    if nodes == [] then []
    else (if IsElement(nodes[0], "cert") then Values(nodes[0].attributes, "key") else []) + KeysInSigs(nodes[1..])
  }

  function KeysInPackage(nodes: seq<Node>): seq<string> {
    if nodes == [] then []
    else (if IsElement(nodes[0], "sigs") then KeysInSigs(nodes[0].content) else []) + KeysInPackage(nodes[1..])
  }

  /** Only packages with the manager's name matter. */
  function KeysInPackages(k: Trusted, nodes: seq<Node>): seq<string> {
    if nodes == [] then []
    else (if IsElement(nodes[0], "package") && k.manager in Values(nodes[0].attributes, "name")
          then KeysInPackage(nodes[0].content) else [])
         + KeysInPackages(k, nodes[1..])
  }

  function Keys(k: Trusted, nodes: seq<Node>): seq<string> {
    if nodes == [] then []
    else (if IsElement(nodes[0], "packages") then KeysInPackages(k, nodes[0].content) else []) + Keys(k, nodes[1..])
  }

  /** What the keys found so far make of the state. */
  function After(k: Trusted, a: Auth, keys: seq<string>): Auth {
    if keys == [] then a else a.(state := if keys[0] == k.key then DonePass else DoneFail)
  }

  // ------------------------------------------------------- the automaton on a file

  predicate Done(s: Phase) {
    s == DonePass || s == DoneFail || s == ParseError
  }

  /** The depth at which the state looks at elements, and one less than where it looks at attributes. */
  function Level(s: Phase): int {
    match s
    case Top => 0
    case Packages => 1
    case Package => 2
    case Sigs => 3
    case Cert => 4
    case _ => -1
  }

  /** Deeper than where anything matters, or after the verdict. */
  predicate Quiet(a: Auth) {
    Done(a.state) || 0 <= Level(a.state) < a.depth
  }

  lemma {:induction false} QuietAttributes(k: Trusted, a: Auth, attributes: seq<Attr>)
    requires Quiet(a)
    ensures OnAll(k, a, AttrEvents(attributes)) == a
  {
    if attributes != [] {
      var first, rest := attributes[0], AttrEvents(attributes[1..]);
      OneAttribute(k, a, first, rest);
      QuietAttributes(k, a, attributes[1..]);
    }
  }

  /** An attribute and what comes behind it. */
  lemma OneAttribute(k: Trusted, a: Auth, first: Attr, rest: seq<Event>)
    ensures OnAll(k, a, [StartAttribute(first.name), Text(first.value), EndAttribute] + rest)
         == OnAll(k, OnEndAttribute(k, OnCharacters(k, OnStartAttribute(a, first.name), first.value)), rest)
  {
    hide CString, OnStartAttribute, OnEndAttribute, OnCharacters;
    var start, text, end := [StartAttribute(first.name)], [Text(first.value)], [EndAttribute];
    assert [StartAttribute(first.name), Text(first.value), EndAttribute] + rest == start + (text + (end + rest));
    OnAllJoin(k, a, start, text + (end + rest));
    OnOne(k, a, start[0]);
    var b := On(k, a, start[0]);
    OnAllJoin(k, b, text, end + rest);
    OnOne(k, b, text[0]);
    OnAllJoin(k, On(k, b, text[0]), end, rest);
    OnOne(k, On(k, b, text[0]), end[0]);
  }

  /** An element, from the inside out. */
  function OnElement(k: Trusted, a: Auth, node: Node): Auth
    requires node.Element?
  {
    OnEndElement(OnAll(k, OnAll(k, OnStartElement(a, node.name), AttrEvents(node.attributes)), Events(node.content)))
  }

  lemma ElementThen(k: Trusted, a: Auth, node: Node, rest: seq<Event>)
    requires node.Element?
    ensures OnAll(k, a, NodeEvents(node) + rest) == OnAll(k, OnElement(k, a, node), rest)
  {
    hide CString, Events, AttrEvents;
    var start, attributes, content := [StartElement(node.name)], AttrEvents(node.attributes), Events(node.content);
    var end := [if node.selfClosing then EndEmptyElement else EndElement(node.name)];
    OnAllJoin(k, a, NodeEvents(node), rest);
    OnAllJoin(k, a, start + attributes + content, end);
    OnAllJoin(k, a, start + attributes, content);
    OnAllJoin(k, a, start, attributes);
    OnOne(k, a, start[0]);
    OnOne(k, OnAll(k, a, start + attributes + content), end[0]);
  }

  lemma OnOne(k: Trusted, a: Auth, e: Event)
    ensures OnAll(k, a, [e]) == On(k, a, e)
  {
    assert [e][1..] == [];
  }

  lemma QuietElement(a: Auth, name: string)
    requires Quiet(a)
    ensures var inside := OnStartElement(a, name);
            Quiet(inside) && inside == a.(depth := a.depth + 1) && OnEndElement(inside) == a
  {
    hide CString;
  }

  lemma {:induction false} QuietNode(k: Trusted, a: Auth, node: Node)
    requires Quiet(a) && node.Element?
    ensures OnElement(k, a, node) == a
    decreases node
  {
    hide OnStartElement, OnEndElement, Quiet, Events, AttrEvents, OnAll;
    QuietElement(a, node.name);
    QuietAttributes(k, OnStartElement(a, node.name), node.attributes);
    QuietNodes(k, OnStartElement(a, node.name), node.content);
  }

  lemma {:induction false} QuietNodes(k: Trusted, a: Auth, nodes: seq<Node>)
    requires Quiet(a)
    ensures OnAll(k, a, Events(nodes)) == a
    decreases nodes
  {
    if nodes != [] {
      QuietNodes(k, a, nodes[1..]);
      if nodes[0].Element? {
        QuietNode(k, a, nodes[0]);
        hide OnElement, OnAll;
        ElementThen(k, a, nodes[0], Events(nodes[1..]));
      } else {
        TextThen(k, a, nodes[0].text, Events(nodes[1..]));
        assert OnCharacters(k, a, nodes[0].text) == a;
      }
    }
  }

  lemma TextThen(k: Trusted, a: Auth, text: string, rest: seq<Event>)
    ensures OnAll(k, a, [Text(text)] + rest) == OnAll(k, OnCharacters(k, a, text), rest)
  {
    OnAllJoin(k, a, [Text(text)], rest);
    OnOne(k, a, Text(text));
  }

  /** An element that the state does not look for at its level is passed over. */
  lemma Passed(k: Trusted, a: Auth, node: Node)
    requires node.Element? && 0 <= Level(a.state) == a.depth && OnStartElement(a, node.name).state == a.state
    requires OnStartElement(a, node.name) == a.(depth := a.depth + 1)
    ensures OnElement(k, a, node) == a
  {
    var inside := OnStartElement(a, node.name);
    QuietAttributes(k, inside, node.attributes);
    QuietNodes(k, inside, node.content);
  }

  /** Nodes at the level of the state, one of which may decide. */
  lemma AfterMore(k: Trusted, a: Auth, first: seq<string>, more: seq<string>, events: seq<Event>)
    requires first != [] ==> OnAll(k, After(k, a, first), events) == After(k, a, first)
    requires first == [] ==> OnAll(k, a, events) == After(k, a, more)
    ensures OnAll(k, After(k, a, first), events) == After(k, a, first + more)
  {
    if first == [] { assert first + more == more; }
  }

  lemma KeyAttribute(k: Trusted, a: Auth, attr: Attr)
    requires a.state == Cert && a.depth == 4
    ensures OnEndAttribute(k, OnCharacters(k, OnStartAttribute(a, attr.name), attr.value))
         == After(k, a, if CString(attr.name) == "key" then [attr.value] else [])
  {
    var n := |attr.value|;
    if n <= |k.key| {
      assert k.key[0..n] == attr.value && n == |k.key| ==> attr.value == k.key;
      assert attr.value == k.key ==> k.key[0..n] == attr.value;
    }
  }

  /** The first key attribute of a certificate decides. */
  lemma {:induction false} CertAttributes(k: Trusted, a: Auth, attributes: seq<Attr>)
    requires a.state == Cert && a.depth == 4
    ensures OnAll(k, a, AttrEvents(attributes)) == After(k, a, Values(attributes, "key"))
    decreases |attributes|
  {
    if attributes != [] {
      var first, rest := attributes[0], AttrEvents(attributes[1..]);
      OneAttribute(k, a, first, rest);
      KeyAttribute(k, a, first);
      var keys := if CString(first.name) == "key" then [first.value] else [];
      if keys == [] {
        CertAttributes(k, a, attributes[1..]);
      } else {
        QuietAttributes(k, After(k, a, keys), attributes[1..]);
      }
      hide OnAll;
      AfterMore(k, a, keys, Values(attributes[1..], "key"), rest);
    }
  }

  /** Elements below the level of the state, which looks for none there. */
  lemma {:induction false} NothingToFind(k: Trusted, a: Auth, nodes: seq<Node>)
    requires Done(a.state) || (a.state == Cert && a.depth == 4) || (a.state == Package && a.depth == 2 && !a.nameMatches)
    ensures OnAll(k, a, Events(nodes)) == a
    decreases |nodes|
  {
    if nodes != [] {
      NothingToFind(k, a, nodes[1..]);
      if nodes[0].Element? {
        if Done(a.state) { QuietNode(k, a, nodes[0]); } else { Passed(k, a, nodes[0]); }
        hide OnElement, OnAll;
        ElementThen(k, a, nodes[0], Events(nodes[1..]));
      } else {
        TextThen(k, a, nodes[0].text, Events(nodes[1..]));
      }
    }
  }

  lemma CertElement(k: Trusted, a: Auth, node: Node)
    requires a.state == Sigs && a.depth == 3 && a.nameMatches && node.Element?
    ensures OnElement(k, a, node) == After(k, a, if IsElement(node, "cert") then Values(node.attributes, "key") else [])
  {
    if IsElement(node, "cert") {
      var inside := OnStartElement(a, node.name);
      CertAttributes(k, inside, node.attributes);
      NothingToFind(k, After(k, inside, Values(node.attributes, "key")), node.content);
    } else {
      Passed(k, a, node);
    }
  }

  lemma {:induction false} SigsNodes(k: Trusted, a: Auth, nodes: seq<Node>)
    requires a.state == Sigs && a.depth == 3 && a.nameMatches
    ensures OnAll(k, a, Events(nodes)) == After(k, a, KeysInSigs(nodes))
    decreases |nodes|
  {
    if nodes != [] {
      var keys := if IsElement(nodes[0], "cert") then Values(nodes[0].attributes, "key") else [];
      if keys == [] { SigsNodes(k, a, nodes[1..]); } else { QuietNodes(k, After(k, a, keys), nodes[1..]); }
      if nodes[0].Element? { CertElement(k, a, nodes[0]); }
      hide OnElement, OnAll, Values;
      NodeThen(k, a, nodes[0], Events(nodes[1..]), keys);
      AfterMore(k, a, keys, KeysInSigs(nodes[1..]), Events(nodes[1..]));
    }
  }

  /** A node with its effect, and what comes behind it. */
  lemma NodeThen(k: Trusted, a: Auth, node: Node, rest: seq<Event>, keys: seq<string>)
    requires node.Element? ==> OnElement(k, a, node) == After(k, a, keys)
    requires node.Chars? ==> keys == [] && Level(a.state) >= 0
    ensures OnAll(k, a, NodeEvents(node) + rest) == OnAll(k, After(k, a, keys), rest)
  {
    if node.Element? { ElementThen(k, a, node, rest); } else { TextThen(k, a, node.text, rest); }
  }

  lemma SigsElement(k: Trusted, a: Auth, node: Node)
    requires a.state == Package && a.depth == 2 && a.nameMatches && node.Element?
    ensures OnElement(k, a, node) == After(k, a, if IsElement(node, "sigs") then KeysInSigs(node.content) else [])
  {
    if IsElement(node, "sigs") {
      var inside := OnStartElement(a, node.name);
      QuietAtSigs(k, inside, node.attributes);
      SigsNodes(k, inside, node.content);
    } else {
      Passed(k, a, node);
    }
  }

  /** Attributes of elements that the state does not look at. */
  lemma {:induction false} QuietAtSigs(k: Trusted, a: Auth, attributes: seq<Attr>)
    requires a.state == Sigs || a.state == Packages
    ensures OnAll(k, a, AttrEvents(attributes)) == a
    decreases |attributes|
  {
    if attributes != [] {
      OneAttribute(k, a, attributes[0], AttrEvents(attributes[1..]));
      QuietAtSigs(k, a, attributes[1..]);
    }
  }

  lemma {:induction false} PackageNodes(k: Trusted, a: Auth, nodes: seq<Node>)
    requires a.state == Package && a.depth == 2 && a.nameMatches
    ensures OnAll(k, a, Events(nodes)) == After(k, a, KeysInPackage(nodes))
    decreases |nodes|
  {
    if nodes != [] {
      var keys := if IsElement(nodes[0], "sigs") then KeysInSigs(nodes[0].content) else [];
      if keys == [] { PackageNodes(k, a, nodes[1..]); } else { QuietNodes(k, After(k, a, keys), nodes[1..]); }
      if nodes[0].Element? { SigsElement(k, a, nodes[0]); }
      hide OnElement, OnAll, KeysInSigs;
      NodeThen(k, a, nodes[0], Events(nodes[1..]), keys);
      AfterMore(k, a, keys, KeysInPackage(nodes[1..]), Events(nodes[1..]));
    }
  }

  /** One attribute with the manager's name is enough, whatever others say. */
  lemma {:induction false} PackageAttributes(k: Trusted, a: Auth, attributes: seq<Attr>)
    requires a.state == Package && a.depth == 2
    ensures OnAll(k, a, AttrEvents(attributes))
         == a.(nameMatches := a.nameMatches || k.manager in Values(attributes, "name"))
    decreases |attributes|
  {
    if attributes != [] {
      var first := attributes[0];
      OneAttribute(k, a, first, AttrEvents(attributes[1..]));
      var b := OnEndAttribute(k, OnCharacters(k, OnStartAttribute(a, first.name), first.value));
      assert "" + first.value == first.value;
      assert b == a.(nameMatches := a.nameMatches || (CString(first.name) == "name" && first.value == k.manager));
      hide OnAll, OnEndAttribute, OnCharacters, OnStartAttribute;
      PackageAttributes(k, b, attributes[1..]);
    }
  }
  /** The state without what it remembers about the last package. */
  function Forget(a: Auth): Auth {
    a.(nameMatches := false)
  }

  lemma PackageElement(k: Trusted, a: Auth, node: Node)
    requires a.state == Packages && a.depth == 1 && node.Element?
    ensures var keys := if IsElement(node, "package") && k.manager in Values(node.attributes, "name")
                        then KeysInPackage(node.content) else [];
            Forget(OnElement(k, a, node)) == Forget(After(k, a, keys))
  {
    if IsElement(node, "package") {
      var inside := OnStartElement(a, node.name);
      PackageAttributes(k, inside, node.attributes);
      var b := OnAll(k, inside, AttrEvents(node.attributes));
      if b.nameMatches { PackageNodes(k, b, node.content); } else { NothingToFind(k, b, node.content); }
    } else {
      Passed(k, a, node);
    }
  }

  lemma {:induction false} PackagesNodes(k: Trusted, a: Auth, nodes: seq<Node>)
    requires a.state == Packages && a.depth == 1
    ensures Forget(OnAll(k, a, Events(nodes))) == Forget(After(k, a, KeysInPackages(k, nodes)))
    decreases |nodes|
  {
    if nodes != [] {
      var node, rest := nodes[0], Events(nodes[1..]);
      var keys := if IsElement(node, "package") && k.manager in Values(node.attributes, "name")
                  then KeysInPackage(node.content) else [];
      var b := if node.Element? then OnElement(k, a, node) else a;
      if node.Element? {
        PackageElement(k, a, node);
        ElementThen(k, a, node, rest);
      } else {
        TextThen(k, a, node.text, rest);
      }
      hide OnElement, OnAll, KeysInPackage, Values;
      if keys == [] { PackagesNodes(k, b, nodes[1..]); } else { QuietNodes(k, b, nodes[1..]); }
    }
  }

  lemma PackagesElement(k: Trusted, a: Auth, node: Node)
    requires a.state == Top && a.depth == 0 && node.Element?
    ensures var keys := if IsElement(node, "packages") then KeysInPackages(k, node.content) else [];
            Forget(OnElement(k, a, node)) == Forget(After(k, a, keys))
  {
    if IsElement(node, "packages") {
      var inside := OnStartElement(a, node.name);
      QuietAtSigs(k, inside, node.attributes);
      PackagesNodes(k, inside, node.content);
    } else {
      Passed(k, a, node);
    }
  }

  lemma {:induction false} TopNodes(k: Trusted, a: Auth, nodes: seq<Node>)
    requires a.state == Top && a.depth == 0
    ensures Forget(OnAll(k, a, Events(nodes))) == Forget(After(k, a, Keys(k, nodes)))
    decreases |nodes|
  {
    if nodes != [] {
      var node, rest := nodes[0], Events(nodes[1..]);
      var keys := if IsElement(node, "packages") then KeysInPackages(k, node.content) else [];
      var b := if node.Element? then OnElement(k, a, node) else a;
      if node.Element? {
        PackagesElement(k, a, node);
        ElementThen(k, a, node, rest);
      } else {
        TextThen(k, a, node.text, rest);
      }
      hide OnElement, OnAll, KeysInPackages;
      if keys == [] { TopNodes(k, b, nodes[1..]); } else { QuietNodes(k, b, nodes[1..]); }
    }
  }

  // --------------------------------------------------------------- the verdict

  datatype Result = Pass | Fail | Unparsable | Busy

  /** Everything that AuthProcess works on. */
  datatype Session = Session(auth: Auth, context: Context)

  function AuthInit(): Session {
    Session(Auth(Top, 0, false), Init())
  }

  /** AuthProcess: a parse error overrides everything else. */
  function AuthProcess(k: Trusted, s: Session, data: string): Session {
    var (c, events) := Process(s.context, data);
    var a := OnAll(k, s.auth, events);
    Session(if c.state == Failed then a.(state := ParseError) else a, c)
  }

  function ResultOf(a: Auth): Result {
    match a.state
    case DonePass => Pass
    case DoneFail => Fail
    case ParseError => Unparsable
    case _ => Busy
  }

  function AuthAll(k: Trusted, s: Session, buffers: seq<string>): Session
    decreases |buffers|
  {
    if buffers == [] then s else AuthAll(k, AuthProcess(k, s, buffers[0]), buffers[1..])
  }

  lemma {:induction false} FailedStays(c: Context, buffers: seq<string>)
    requires c.state == Failed
    ensures ProcessAll(c, buffers).0 == c
    decreases |buffers|
  {
    if buffers != [] { FailedStays(c, buffers[1..]); }
  }

  lemma {:induction false} AuthAllEvents(k: Trusted, s: Session, buffers: seq<string>)
    requires ProcessAll(s.context, buffers).0.state != Failed
    ensures var (c, events) := ProcessAll(s.context, buffers);
            AuthAll(k, s, buffers) == Session(OnAll(k, s.auth, events), c)
    decreases |buffers|
  {
    if buffers != [] {
      var (d, events) := Process(s.context, buffers[0]);
      if d.state == Failed { FailedStays(d, buffers[1..]); }
      AuthAllEvents(k, AuthProcess(k, s, buffers[0]), buffers[1..]);
      OnAllJoin(k, s.auth, events, ProcessAll(d, buffers[1..]).1);
    }
  }

  /** What a packages file deserves: its first key, in a package with the manager's name, must be the trusted one. */
  function Verdict(k: Trusted, nodes: seq<Node>): Result {
    var keys := Keys(k, nodes);
    if keys == [] then Busy else if keys[0] == k.key then Pass else Fail
  }

  /** For input that the parser takes for a packages file, the verdict is the one that the file deserves. */
  lemma FileIsJudged(k: Trusted, buffers: seq<string>, nodes: seq<Node>)
    requires var (c, events) := Process(Init(), Joined(buffers));
             c.state != Failed && Atoms(events) == Atoms(Events(nodes))
    ensures ResultOf(AuthAll(k, AuthInit(), buffers).auth) == Verdict(k, nodes)
  {
    hide Process, Atoms, Events, Keys, OnAll;
    var s := AuthInit();
    CutsDoNotMatter(Init(), buffers);
    AuthAllEvents(k, s, buffers);
    var events := ProcessAll(Init(), buffers).1;
    OnAtoms(k, s.auth, events);
    OnAtoms(k, s.auth, Events(nodes));
    TopNodes(k, s.auth, nodes);
    assert Forget(OnAll(k, s.auth, events)) == Forget(After(k, s.auth, Keys(k, nodes)));
  }

  lemma {:induction false} ErrorStays(k: Trusted, a: Auth, events: seq<Event>)
    requires a.state == ParseError
    ensures OnAll(k, a, events).state == ParseError
    decreases |events|
  {
    if events != [] { ErrorStays(k, On(k, a, events[0]), events[1..]); }
  }

  /** An error anywhere in the input leaves no verdict but that one. */
  lemma {:induction false} ErrorsSpoilIt(k: Trusted, a: Auth, events: seq<Event>)
    requires Error in events
    ensures OnAll(k, a, events).state == ParseError
    decreases |events|
  {
    if events[0] == Error {
      ErrorStays(k, On(k, a, events[0]), events[1..]);
    } else {
      ErrorsSpoilIt(k, On(k, a, events[0]), events[1..]);
    }
  }
}
