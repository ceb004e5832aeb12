/** The XFA tree builder of `parse_xml_root` and the script count (src/forms/xfa.rs).
    The XML reader is replaced by the list of events it delivers. */
module XfaTree {
  import opened Bits

  type Attributes = map<string, string>

  datatype Node = Node(name: string, attributes: Attributes, text: Option<string>, children: seq<Node>)

  /** `Text(None)` is text that does not decode, `Malformed` a reader or attribute error, `Reference` an entity or
      character reference between two pieces of text, which the reader delivers by itself, `Other` a declaration,
      comment, processing instruction or document type. */
  datatype Event =
    | Start(name: string, attributes: Attributes)
    | Empty(name: string, attributes: Attributes)
    | Text(text: Option<string>)
    | CData(data: string)
    | End
    | Reference(name: string)
    | Other
    | Malformed

  datatype XmlError = ParseError | NoRoot

  // ---------------------------------------------------------------- trimming

  /** The characters with the Unicode property White_Space, which `str::trim` removes. */
  predicate Whitespace(c: char) {
    var n := c as int;
    9 <= n <= 13 || n == 0x20 || n == 0x85 || n == 0xA0 || n == 0x1680 || 0x2000 <= n <= 0x200A
    || n == 0x2028 || n == 0x2029 || n == 0x202F || n == 0x205F || n == 0x3000
  }

  lemma WhitespaceExactly(c: char)
    ensures Whitespace(c) <==> c as int in {
      0x9, 0xA, 0xB, 0xC, 0xD, 0x20, 0x85, 0xA0, 0x1680, 0x2000, 0x2001, 0x2002, 0x2003, 0x2004, 0x2005, 0x2006, 0x2007,
      0x2008, 0x2009, 0x200A, 0x2028, 0x2029, 0x202F, 0x205F, 0x3000}
  {
  }

  function Trimmed(s: string): string {
    if s == "" then ""
    else if Whitespace(s[0]) then Trimmed(s[1..])
    else TrimmedEnd(s)
  }

  function TrimmedEnd(s: string): string {
    if s == "" then ""
    else if Whitespace(s[|s| - 1]) then TrimmedEnd(s[..|s| - 1])
    else s
  }

  /** Trimming takes white space off both ends and nothing else. */
  lemma {:induction false} TrimmedExactly(s: string) returns (from: nat, to: nat)
    ensures from <= to <= |s| && Trimmed(s) == s[from..to]
    ensures forall k :: 0 <= k < from || to <= k < |s| ==> Whitespace(s[k])
    ensures from < to ==> !Whitespace(s[from]) && !Whitespace(s[to - 1])
  {
    hide Whitespace;
    if s == "" {
      from, to := 0, 0;
    } else if Whitespace(s[0]) {
      from, to := TrimmedExactly(s[1..]);
      assert forall k :: 0 < k < |s| ==> s[k] == s[1..][k - 1];
      assert s[1..][from..to] == s[from + 1..to + 1];
      from, to := from + 1, to + 1;
    } else {
      from := 0;
      to := TrimmedEndExactly(s);
      assert to > 0;
    }
  }

  lemma {:induction false} TrimmedEndExactly(s: string) returns (to: nat)
    ensures to <= |s| && TrimmedEnd(s) == s[..to]
    ensures forall k :: to <= k < |s| ==> Whitespace(s[k])
    ensures to > 0 ==> !Whitespace(s[to - 1])
  {
    hide Whitespace;
    if s == "" {
      to := 0;
    } else if Whitespace(s[|s| - 1]) {
      to := TrimmedEndExactly(s[..|s| - 1]);
      assert s[..|s| - 1][..to] == s[..to];
      forall k | to <= k < |s| ensures Whitespace(s[k]) {
        if k < |s| - 1 { assert s[k] == s[..|s| - 1][k]; }
      }
    } else {
      to := |s|;
      assert s[..to] == s;
    }
  }

  // ---------------------------------------------------------------- the stack machine

  datatype Machine = Machine(stack: seq<Node>, root: Option<Node>)

  function AddText(node: Node, text: string): Node {
    var trimmed := Trimmed(text);
    if trimmed == "" then node
    else node.(text := Some((if node.text.Some? then node.text.value else "") + trimmed))
  }

  function AddChild(node: Node, child: Node): Node {
    node.(children := node.children + [child])
  }

  function Top(stack: seq<Node>): Node
    requires stack != []
  {
    stack[|stack| - 1]
  }

  function WithTop(stack: seq<Node>, node: Node): seq<Node>
    requires stack != []
  {
    stack[..|stack| - 1] + [node]
  }

  function Step(m: Machine, e: Event): Result<Machine, XmlError> {
    match e
    case Start(name, attributes) => Ok(m.(stack := m.stack + [Node(name, attributes, None, [])]))
    case Empty(name, attributes) =>
      var node := Node(name, attributes, None, []);
      if m.stack != [] then Ok(m.(stack := WithTop(m.stack, AddChild(Top(m.stack), node))))
      else if m.root.None? then Ok(m.(root := Some(node)))
      else Ok(m)
    case Text(text) =>
      if m.stack == [] then Ok(m)
      else if text.None? then Err(ParseError)
      else Ok(m.(stack := WithTop(m.stack, AddText(Top(m.stack), text.value))))
    case CData(data) =>
      if m.stack == [] then Ok(m) else Ok(m.(stack := WithTop(m.stack, AddText(Top(m.stack), data))))
    case End =>
      if m.stack == [] then Ok(m)
      else
        var node, below := Top(m.stack), m.stack[..|m.stack| - 1];
        if below != [] then Ok(m.(stack := WithTop(below, AddChild(Top(below), node))))
        else Ok(Machine(below, Some(node)))
    case Reference(_) => Ok(m)
    case Other => Ok(m)
    case Malformed => Err(ParseError)
  }

  function Run(m: Machine, events: seq<Event>): Result<Machine, XmlError>
    decreases |events|
  {
    if events == [] then Ok(m)
    else
      var next := Step(m, events[0]);
      if next.Err? then next else Run(next.value, events[1..])
  }

  function Parsed(events: seq<Event>): Result<Node, XmlError> {
    var m := Run(Machine([], None), events);
    if m.Err? then Err(m.error) else if m.value.root.None? then Err(NoRoot) else Ok(m.value.root.value)
  }

  lemma RunStep(m: Machine, events: seq<Event>, i: nat)
    requires i < |events|
    ensures Run(m, events[i..]) ==
      if Step(m, events[i]).Err? then Step(m, events[i]) else Run(Step(m, events[i]).value, events[i + 1..])
  {
    assert events[i..][1..] == events[i + 1..];
  }

  lemma RunNothing(m: Machine)
    ensures Run(m, []) == Ok(m)
  {
  }

  /** `parse_xml_root`. */
  method ParseXmlRoot(events: seq<Event>) returns (r: Result<Node, XmlError>)
    ensures r == Parsed(events)
  {
    hide Run, Trimmed;
    var stack: seq<Node> := [];
    var root: Option<Node> := None;
    assert events[0..] == events;
    for i := 0 to |events|
      invariant Run(Machine(stack, root), events[i..]) == Run(Machine([], None), events)
    {
      RunStep(Machine(stack, root), events, i);
      match events[i] {
        case Start(name, attributes) =>
          stack := stack + [Node(name, attributes, None, [])];
        case Empty(name, attributes) =>
          var node := Node(name, attributes, None, []);
          if stack != [] {
            stack := WithTop(stack, AddChild(Top(stack), node));
          } else if root.None? {
            root := Some(node);
          }
        case Text(text) =>
          if stack != [] {
            if text.None? {
              return Err(ParseError);
            }
            stack := WithTop(stack, AddText(Top(stack), text.value));
          }
        case CData(data) =>
          if stack != [] {
            stack := WithTop(stack, AddText(Top(stack), data));
          }
        case End =>
          if stack != [] {
            var node := Top(stack);
            stack := stack[..|stack| - 1];
            if stack != [] {
              stack := WithTop(stack, AddChild(Top(stack), node));
            } else {
              root := Some(node);
            }
          }
        case Reference(_) =>
        case Other =>
        case Malformed =>
          return Err(ParseError);
      }
    }
    assert events[|events|..] == [];
    RunNothing(Machine(stack, root));
    return if root.None? then Err(NoRoot) else Ok(root.value);
  }

  // ---------------------------------------------------------------- documents and their events

  /** An element: empty in the short form, or with content. */
  datatype Element = Short(name: string, attributes: Attributes)
                   | Full(name: string, attributes: Attributes, content: seq<Item>)

  datatype Item = Child(element: Element) | Characters(text: string) | CDataSection(data: string)
                | EntityReference(entity: string) | Ignored

  /** The events of an element followed by `rest`. */
  function ElementEvents(e: Element, rest: seq<Event>): seq<Event>
    decreases e, 0
  {
    match e
    case Short(name, attributes) => [Empty(name, attributes)] + rest
    case Full(name, attributes, content) => [Start(name, attributes)] + ContentEvents(content, [End] + rest)
  }

  function ItemEvents(item: Item, rest: seq<Event>): seq<Event>
    decreases item, 0
  {
    match item
    case Child(e) => ElementEvents(e, rest)
    case Characters(text) => [Text(Some(text))] + rest
    case CDataSection(data) => [CData(data)] + rest
    case EntityReference(entity) => [Reference(entity)] + rest
    case Ignored => [Other] + rest
  }

  function ContentEvents(content: seq<Item>, rest: seq<Event>): seq<Event>
    decreases content, 0
  {
    if content == [] then rest else ItemEvents(content[0], ContentEvents(content[1..], rest))
  }

  /** The tree an element is rebuilt as: its trimmed text pieces joined, its references left out, its child elements in
      order. */
  function Meaning(e: Element): Node
    decreases e, 0
  {
    match e
    case Short(name, attributes) => Node(name, attributes, None, [])
    case Full(name, attributes, content) =>
      var text := Joined(content);
      Node(name, attributes, if text == "" then None else Some(text), Children(content))
  }

  function Joined(content: seq<Item>): string {
    if content == [] then ""
    else
      (match content[0]
       case Characters(text) => Trimmed(text)
       case CDataSection(data) => Trimmed(data)
       case _ => "") + Joined(content[1..])
  }

  function ChildOf(item: Item): seq<Node>
    decreases item, 0
  {
    if item.Child? then [Meaning(item.element)] else []
  }

  function Children(content: seq<Item>): seq<Node>
    decreases content, 0
  {
    if content == [] then [] else ChildOf(content[0]) + Children(content[1..])
  }

  // ---------------------------------------------------------------- the tree is rebuilt

  function TextOr(text: Option<string>): string {
    if text.Some? then text.value else ""
  }

  /** `node` after all of `content` has been read into it. */
  function Filled(node: Node, content: seq<Item>): Node {
    var text := TextOr(node.text) + Joined(content);
    Node(node.name, node.attributes, if text == "" then None else Some(text), node.children + Children(content))
  }

  /** No node carries an empty text. */
  predicate TextKept(node: Node) {
    node.text != Some("")
  }

  lemma RunFirst(m: Machine, e: Event, rest: seq<Event>)
    requires Step(m, e).Ok?
    ensures Run(m, [e] + rest) == Run(Step(m, e).value, rest)
  {
    hide Step;
    assert ([e] + rest)[1..] == rest;
  }

  lemma NoChild(content: seq<Item>)
    requires content != [] && !content[0].Child?
    ensures Children(content) == Children(content[1..])
  {
    assert ChildOf(content[0]) == [];
    assert [] + Children(content[1..]) == Children(content[1..]);
  }

  lemma OneChild(item: Item)
    requires item.Child?
    ensures ChildOf(item) == [Meaning(item.element)]
  {
    hide Meaning;
  }

  lemma AddTextFills(node: Node, text: string, content: seq<Item>, rest: seq<Item>)
    requires TextKept(node) && content != [] && rest == content[1..]
    requires content[0] == Characters(text) || content[0] == CDataSection(text)
    ensures TextKept(AddText(node, text)) && Filled(AddText(node, text), rest) == Filled(node, content)
  {
    hide Trimmed;
    ConcatAssoc(TextOr(node.text), Trimmed(text), Joined(rest));
    NoChild(content);
    assert "" + Joined(rest) == Joined(rest);
  }

  lemma AddChildFills(node: Node, content: seq<Item>)
    requires TextKept(node) && content != [] && content[0].Child?
    ensures var added := AddChild(node, Meaning(content[0].element));
      TextKept(added) && Filled(added, content[1..]) == Filled(node, content)
  {
    hide Meaning;
    assert ChildOf(content[0]) == [Meaning(content[0].element)] by { OneChild(content[0]); }
    ConcatAssoc(node.children, [Meaning(content[0].element)], Children(content[1..]));
    assert "" + Joined(content[1..]) == Joined(content[1..]);
  }

  lemma IgnoredFills(node: Node, content: seq<Item>)
    requires content != [] && (content[0].Ignored? || content[0].EntityReference?)
    ensures Filled(node, content[1..]) == Filled(node, content)
  {
    assert "" + Joined(content[1..]) == Joined(content[1..]);
    NoChild(content);
  }

  lemma TopPushed(below: seq<Node>, node: Node)
    ensures Top(below + [node]) == node && (below + [node])[..|below|] == below
    ensures forall other :: WithTop(below + [node], other) == below + [other]
  {
  }

  lemma {:induction false} ItemRead(below: seq<Node>, node: Node, root: Option<Node>, content: seq<Item>, item: Item,
        rest: seq<Event>)
    returns (next: Node)
    requires TextKept(node) && content != [] && item == content[0]
    ensures TextKept(next) && Filled(next, content[1..]) == Filled(node, content)
    ensures Run(Machine(below + [node], root), ItemEvents(item, rest)) == Run(Machine(below + [next], root), rest)
    decreases item, 0
  {
    hide Run, Meaning, AddText, Filled, ElementEvents;
    var m := Machine(below + [node], root);
    TopPushed(below, node);
    match item {
      case Child(e) =>
        next := AddChild(node, Meaning(e));
        ElementRead(below + [node], root, e, rest);
        AddChildFills(node, content);
      case Characters(text) =>
        next := AddText(node, text);
        RunFirst(m, Text(Some(text)), rest);
        AddTextFills(node, text, content, content[1..]);
      case CDataSection(data) =>
        next := AddText(node, data);
        RunFirst(m, CData(data), rest);
        AddTextFills(node, data, content, content[1..]);
      case EntityReference(entity) =>
        next := node;
        RunFirst(m, Reference(entity), rest);
        IgnoredFills(node, content);
      case Ignored =>
        next := node;
        RunFirst(m, Other, rest);
        IgnoredFills(node, content);
    }
  }

  /** Reading the content of the element on top of the stack fills its node. */
  lemma {:induction false} ContentRead(below: seq<Node>, node: Node, root: Option<Node>, content: seq<Item>,
        rest: seq<Event>)
    requires TextKept(node)
    ensures Run(Machine(below + [node], root), ContentEvents(content, rest)) ==
      Run(Machine(below + [Filled(node, content)], root), rest)
    decreases content, 0
  {
    hide Run, Filled, ItemEvents;
    if content == [] {
      FilledNothing(node);
    } else {
      var next := ItemRead(below, node, root, content, content[0], ContentEvents(content[1..], rest));
      ContentRead(below, next, root, content[1..], rest);
    }
  }

  lemma FilledNothing(node: Node)
    requires TextKept(node)
    ensures Filled(node, []) == node
  {
    assert TextOr(node.text) + "" == TextOr(node.text);
    assert node.children + [] == node.children;
  }

  lemma FilledFresh(e: Element)
    requires e.Full?
    ensures Filled(Node(e.name, e.attributes, None, []), e.content) == Meaning(e)
  {
    assert "" + Joined(e.content) == Joined(e.content);
    assert [] + Children(e.content) == Children(e.content);
  }

  /** Reading an element inside another adds its tree as a child. */
  lemma {:induction false} ElementRead(stack: seq<Node>, root: Option<Node>, e: Element, rest: seq<Event>)
    requires stack != []
    ensures Run(Machine(stack, root), ElementEvents(e, rest)) ==
      Run(Machine(WithTop(stack, AddChild(Top(stack), Meaning(e))), root), rest)
    decreases e, 0
  {
    hide Run, Filled, ContentEvents, Joined, Children;
    match e
    case Short(name, attributes) =>
      RunFirst(Machine(stack, root), Empty(name, attributes), rest);
    case Full(name, attributes, content) =>
      var blank := Node(name, attributes, None, []);
      RunFirst(Machine(stack, root), Start(name, attributes), ContentEvents(content, [End] + rest));
      ContentRead(stack, blank, root, content, [End] + rest);
      FilledFresh(e);
      TopPushed(stack, Meaning(e));
      RunFirst(Machine(stack + [Meaning(e)], root), End, rest);
  }

  lemma OpenRoot(name: string, attributes: Attributes, root: Option<Node>, rest: seq<Event>)
    ensures Run(Machine([], root), [Start(name, attributes)] + rest) ==
      Run(Machine([] + [Node(name, attributes, None, [])], root), rest)
  {
    hide Run;
    RunFirst(Machine([], root), Start(name, attributes), rest);
  }

  lemma CloseRoot(node: Node, root: Option<Node>, rest: seq<Event>)
    ensures Run(Machine([] + [node], root), [End] + rest) == Run(Machine([], Some(node)), rest)
  {
    hide Run;
    assert [] + [node] == [node] && [node][..0] == [];
    RunFirst(Machine([] + [node], root), End, rest);
  }

  /** Reading the outermost element makes its tree the root. */
  lemma RootRead(e: Element, rest: seq<Event>)
    ensures Run(Machine([], None), ElementEvents(e, rest)) == Run(Machine([], Some(Meaning(e))), rest)
  {
    hide Run, Filled, ContentEvents, Joined, Children, Step;
    match e
    case Short(name, attributes) =>
      EmptyRoot(name, attributes, rest);
    case Full(name, attributes, content) =>
      OpenRoot(name, attributes, None, ContentEvents(content, [End] + rest));
      ContentRead([], Node(name, attributes, None, []), None, content, [End] + rest);
      FilledFresh(e);
      CloseRoot(Meaning(e), None, rest);
  }

  lemma EmptyRoot(name: string, attributes: Attributes, rest: seq<Event>)
    ensures Run(Machine([], None), [Empty(name, attributes)] + rest) ==
      Run(Machine([], Some(Node(name, attributes, None, []))), rest)
  {
    hide Run;
    RunFirst(Machine([], None), Empty(name, attributes), rest);
  }

  /** Events that may stand outside the root element. */
  predicate Outside(events: seq<Event>) {
    forall i :: 0 <= i < |events| ==> (events[i].Other? || events[i].Reference? || events[i].Text? || events[i].CData?)
  }

  lemma {:induction false} OutsideRead(root: Option<Node>, events: seq<Event>, rest: seq<Event>)
    requires Outside(events)
    ensures Run(Machine([], root), events + rest) == Run(Machine([], root), rest)
  {
    hide Run;
    if events == [] {
      assert events + rest == rest;
    } else {
      assert events + rest == [events[0]] + (events[1..] + rest);
      RunFirst(Machine([], root), events[0], events[1..] + rest);
      OutsideRead(root, events[1..], rest);
    }
  }

  /** The stack machine rebuilds the tree of any document. */
  lemma DocumentRebuilt(prolog: seq<Event>, e: Element, epilog: seq<Event>)
    requires Outside(prolog) && Outside(epilog)
    ensures Parsed(prolog + ElementEvents(e, epilog)) == Ok(Meaning(e))
  {
    hide Run, Meaning;
    OutsideRead(None, prolog, ElementEvents(e, epilog));
    RootRead(e, epilog);
    assert epilog + [] == epilog;
    OutsideRead(Some(Meaning(e)), epilog, []);
    RunNothing(Machine([], Some(Meaning(e))));
  }

  // ---------------------------------------------------------------- references

  /** The text of an element with its references replaced by what `entities` says they stand for. */
  function Resolved(content: seq<Item>, entities: string -> string): string {
    if content == [] then ""
    else
      (match content[0]
       case Characters(text) => Trimmed(text)
       case CDataSection(data) => Trimmed(data)
       case EntityReference(entity) => entities(entity)
       case _ => "") + Resolved(content[1..], entities)
  }

  ghost predicate NoneStands(content: seq<Item>, entities: string -> string) {
    forall i :: 0 <= i < |content| && content[i].EntityReference? ==> entities(content[i].entity) == ""
  }

  lemma NoneStandsStep(content: seq<Item>, entities: string -> string)
    requires content != []
    ensures NoneStands(content, entities) <==>
      (content[0].EntityReference? ==> entities(content[0].entity) == "") && NoneStands(content[1..], entities)
  {
    var more := content[1..];
    assert forall i :: 0 <= i < |more| ==> more[i] == content[i + 1];
    if NoneStands(content, entities) {
      forall i | 0 <= i < |more| && more[i].EntityReference? ensures entities(more[i].entity) == "" {
        assert content[i + 1] == more[i];
      }
    }
    if NoneStands(more, entities) {
      forall i | 0 < i < |content| && content[i].EntityReference? ensures entities(content[i].entity) == "" {
        assert content[i] == more[i - 1];
      }
    }
  }

  lemma {:induction false} ReferencesShorten(content: seq<Item>, entities: string -> string)
    ensures |Joined(content)| <= |Resolved(content, entities)|
    ensures |Joined(content)| == |Resolved(content, entities)| ==> NoneStands(content, entities)
    ensures NoneStands(content, entities) ==> Joined(content) == Resolved(content, entities)
  {
    hide Trimmed, NoneStands;
    if content == [] {
      NoItems(entities);
    } else {
      NoneStandsStep(content, entities);
      ReferencesShorten(content[1..], entities);
    }
  }

  lemma NoItems(entities: string -> string)
    ensures NoneStands([], entities)
  {
  }

  /** The text of an element is what its references make of it exactly when none of them stands for anything. */
  lemma ReferencesLost(content: seq<Item>, entities: string -> string)
    ensures Joined(content) == Resolved(content, entities) <==>
      forall i :: 0 <= i < |content| && content[i].EntityReference? ==> entities(content[i].entity) == ""
  {
    hide Trimmed;
    ReferencesShorten(content, entities);
  }

  /** An ampersand between two words is lost, with the blanks around it. */
  lemma AmpersandLost(attributes: Attributes)
    ensures var content := [Characters("x "), EntityReference("amp"), Characters(" y")];
      Parsed(ElementEvents(Full("text", attributes, content), [])) == Ok(Node("text", attributes, Some("xy"), []))
  {
    hide Run, Trimmed;
    var content := [Characters("x "), EntityReference("amp"), Characters(" y")];
    var e := Full("text", attributes, content);
    DocumentRebuilt([], e, []);
    assert [] + ElementEvents(e, []) == ElementEvents(e, []);
    BlanksTrimmed();
    assert content[1..] == [EntityReference("amp"), Characters(" y")] && content[2..] == [Characters(" y")];
    assert content[1..][1..] == content[2..] && content[2..][1..] == [];
    assert Joined(content[2..]) == "y" && Joined(content[1..]) == "y" && Joined(content) == "xy";
    assert Children(content[2..]) == [] && Children(content[1..]) == [] && Children(content) == [];
  }

  lemma BlanksTrimmed()
    ensures Trimmed("x ") == "x" && Trimmed(" y") == "y"
  {
    assert "x "[..1] == "x" && " y"[1..] == "y";
    assert TrimmedEnd("x") == "x" && TrimmedEnd("y") == "y";
  }

  // ---------------------------------------------------------------- scripts

  /** `is_script_node` */
  predicate IsScriptName(name: string) {
    name in {"script", "event", "calculate", "validate", "execute", "exec", "init",
             "preSubmit", "postSubmit", "preOpen", "postOpen"}
  }

  /** `has_script_attribute` */
  predicate HasScriptAttribute(attributes: Attributes) {
    ("runAt" in attributes && attributes["runAt"] != "") || ("script" in attributes && attributes["script"] != "")
  }

  predicate IsScript(name: string, attributes: Attributes) {
    IsScriptName(name) || HasScriptAttribute(attributes)
  }

  /** A script node by its name, or by an attribute that says where a script runs or what it is. */
  lemma ScriptExactly(name: string, attributes: Attributes)
    ensures IsScript(name, attributes) <==>
      || name == "script" || name == "event" || name == "calculate" || name == "validate" || name == "execute"
      || name == "exec" || name == "init" || name == "preSubmit" || name == "postSubmit" || name == "preOpen"
      || name == "postOpen"
      || exists key :: key in attributes && (key == "runAt" || key == "script") && attributes[key] != ""
  {
  }

  /** Names of the script nodes of a tree, parents before children. */
  function ScriptNames(node: Node): seq<string>
    decreases node, 0
  {
    (if IsScript(node.name, node.attributes) then [node.name] else []) + AllScriptNames(node.children)
  }

  function AllScriptNames(nodes: seq<Node>): seq<string>
    decreases nodes, 1
  {
    if nodes == [] then [] else AllScriptNames(nodes[..|nodes| - 1]) + ScriptNames(nodes[|nodes| - 1])
  }

  /** `count_scripts`, with its two accumulators. */
  method CountScripts(node: Node, count: nat, names: seq<string>) returns (count': nat, names': seq<string>)
    ensures count' == count + |ScriptNames(node)|
    ensures names' == names + ScriptNames(node)
    decreases node
  {
    hide IsScript, AllScriptNames;
    count', names' := count, names;
    if IsScript(node.name, node.attributes) {
      count' := count' + 1;
      names' := names' + [node.name];
    }
    ghost var count0, names0 := count', names';
    NoScriptNames();
    assert node.children[..0] == [] && names0 + [] == names0;
    for i := 0 to |node.children|
      invariant count' == count0 + |AllScriptNames(node.children[..i])|
      invariant names' == names0 + AllScriptNames(node.children[..i])
    {
      AllScriptNamesStep(node.children, i);
      ConcatAssoc(names0, AllScriptNames(node.children[..i]), ScriptNames(node.children[i]));
      count', names' := CountScripts(node.children[i], count', names');
    }
    assert node.children[..|node.children|] == node.children;
    ScriptNamesAre(node);
    assert names + [] == names;
    ConcatAssoc(names, if IsScript(node.name, node.attributes) then [node.name] else [], AllScriptNames(node.children));
  }

  lemma NoScriptNames()
    ensures AllScriptNames([]) == []
  {
  }

  lemma AllScriptNamesStep(nodes: seq<Node>, i: nat)
    requires i < |nodes|
    ensures AllScriptNames(nodes[..i + 1]) == AllScriptNames(nodes[..i]) + ScriptNames(nodes[i])
  {
    assert nodes[..i + 1][..i] == nodes[..i];
  }

  lemma ScriptNamesAre(node: Node)
    ensures ScriptNames(node) ==
      (if IsScript(node.name, node.attributes) then [node.name] else []) + AllScriptNames(node.children)
  {
  }

  /** Names of the start and empty-element events that pass the script test, in order. */
  function ScriptEvents(events: seq<Event>): seq<string> {
    if events == [] then []
    else
      (if (events[0].Start? || events[0].Empty?) && IsScript(events[0].name, events[0].attributes)
       then [events[0].name] else []) + ScriptEvents(events[1..])
  }

  lemma ScriptEventsFirst(e: Event, rest: seq<Event>)
    ensures ScriptEvents([e] + rest) ==
      (if (e.Start? || e.Empty?) && IsScript(e.name, e.attributes) then [e.name] else []) + ScriptEvents(rest)
  {
    hide IsScript;
    assert ([e] + rest)[1..] == rest;
  }

  lemma {:induction false} ElementScripts(e: Element, rest: seq<Event>)
    ensures ScriptEvents(ElementEvents(e, rest)) == ScriptNames(Meaning(e)) + ScriptEvents(rest)
    decreases e, 0
  {
    hide IsScript, ScriptEvents, AllScriptNames, ContentEvents, Children, Joined;
    match e
    case Short(name, attributes) =>
      ScriptEventsFirst(Empty(name, attributes), rest);
      NoScriptNames();
      ScriptNamesAre(Meaning(e));
      var own := if IsScript(name, attributes) then [name] else [];
      assert own + [] == own;
    case Full(name, attributes, content) =>
      ScriptEventsFirst(Start(name, attributes), ContentEvents(content, [End] + rest));
      ContentScripts(content, [End] + rest);
      ScriptEventsFirst(End, rest);
      assert [] + ScriptEvents(rest) == ScriptEvents(rest);
      ScriptNamesAre(Meaning(e));
      ConcatAssoc(if IsScript(name, attributes) then [name] else
        [], AllScriptNames(Children(content)), ScriptEvents(rest));
  }

  lemma {:induction false} ItemScripts(item: Item, rest: seq<Event>)
    ensures ScriptEvents(ItemEvents(item, rest)) == AllScriptNames(ChildOf(item)) + ScriptEvents(rest)
    decreases item, 0
  {
    hide IsScript, ScriptEvents, AllScriptNames, ElementEvents, Meaning;
    NoScriptNames();
    assert [] + ScriptEvents(rest) == ScriptEvents(rest);
    match item
    case Child(e) =>
      ElementScripts(e, rest);
      OneNode(Meaning(e));
    case Characters(text) => ScriptEventsFirst(Text(Some(text)), rest);
    case CDataSection(data) => ScriptEventsFirst(CData(data), rest);
    case EntityReference(entity) => ScriptEventsFirst(Reference(entity), rest);
    case Ignored => ScriptEventsFirst(Other, rest);
  }

  lemma OneNode(node: Node)
    ensures AllScriptNames([node]) == ScriptNames(node)
  {
    hide ScriptNames;
    assert [node][..0] == [];
    NoScriptNames();
    assert [] + ScriptNames(node) == ScriptNames(node);
  }

  lemma {:induction false} AllScriptNamesAppend(a: seq<Node>, b: seq<Node>)
    ensures AllScriptNames(a + b) == AllScriptNames(a) + AllScriptNames(b)
  {
    hide AllScriptNames;
    if b == [] {
      NoScriptNames();
      assert a + b == a && AllScriptNames(a) + [] == AllScriptNames(a);
    } else {
      var n := |b| - 1;
      AllScriptNamesAppend(a, b[..n]);
      AllScriptNamesStep(b, n);
      AllScriptNamesStep(a + b, |a| + n);
      assert (a + b)[..|a| + n] == a + b[..n] && (a + b)[..|a| + n + 1] == a + b && b[..n + 1] == b;
      ConcatAssoc(AllScriptNames(a), AllScriptNames(b[..n]), ScriptNames(b[n]));
    }
  }

  lemma {:induction false} ContentScripts(content: seq<Item>, rest: seq<Event>)
    ensures ScriptEvents(ContentEvents(content, rest)) == AllScriptNames(Children(content)) + ScriptEvents(rest)
    decreases content, 0
  {
    hide ScriptEvents, AllScriptNames, ItemEvents, ChildOf;
    if content == [] {
      NoScriptNames();
      assert [] + ScriptEvents(rest) == ScriptEvents(rest);
    } else {
      ItemScripts(content[0], ContentEvents(content[1..], rest));
      ContentScripts(content[1..], rest);
      AllScriptNamesAppend(ChildOf(content[0]), Children(content[1..]));
      ConcatAssoc(AllScriptNames(ChildOf(content[0])), AllScriptNames(Children(content[1..])), ScriptEvents(rest));
    }
  }

  /** The script nodes of the rebuilt tree are the start events that pass the script test, in order. */
  lemma ScriptsCounted(prolog: seq<Event>, e: Element, epilog: seq<Event>)
    requires Outside(prolog) && Outside(epilog)
    ensures Parsed(prolog + ElementEvents(e, epilog)).Ok?
    ensures ScriptNames(Parsed(prolog + ElementEvents(e, epilog)).value) ==
      ScriptEvents(prolog + ElementEvents(e, epilog))
  {
    hide Parsed, ScriptEvents, ScriptNames, ElementEvents, Meaning;
    DocumentRebuilt(prolog, e, epilog);
    ElementScripts(e, epilog);
    OutsideScripts(prolog, ElementEvents(e, epilog));
    OutsideScripts(epilog, []);
    assert epilog + [] == epilog;
    assert ScriptEvents([]) == [] by { NoScriptEvents(); }
    assert ScriptNames(Meaning(e)) + [] == ScriptNames(Meaning(e));
  }

  lemma NoScriptEvents()
    ensures ScriptEvents([]) == []
  {
  }

  lemma {:induction false} OutsideScripts(events: seq<Event>, rest: seq<Event>)
    requires Outside(events)
    ensures ScriptEvents(events + rest) == ScriptEvents(rest)
  {
    hide ScriptEvents;
    if events == [] {
      assert events + rest == rest;
    } else {
      assert events + rest == [events[0]] + (events[1..] + rest);
      ScriptEventsFirst(events[0], events[1..] + rest);
      assert [] + ScriptEvents(events[1..] + rest) == ScriptEvents(events[1..] + rest);
      OutsideScripts(events[1..], rest);
    }
  }
}
