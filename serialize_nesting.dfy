/**
 * The forward pass never makes a JsonWriter throw: on a well-formed tree every start token
 * it writes is closed in order, every property name is followed by exactly one value, and
 * array and constructor items carry no property names.
 */
module SerializeNesting {
  import opened Results
  import opened XmlDom
  import opened ConverterNames
  import opened Grouping
  import opened JsonTokens
  import opened SerializeSpec

  lemma RunSingle(st: seq<Frame>, t: Token)
    ensures WriterRun(st, [t]) == WriterStep(st, t)
  {
    assert [t][1..] == [];
  }

  lemma RunThen(st: seq<Frame>, a: seq<Token>, b: seq<Token>, mid: seq<Frame>)
    requires WriterRun(st, a) == Some(mid)
    ensures WriterRun(st, a + b) == WriterRun(mid, b)
  {
    WriterRunAppend(st, a, b);
  }

  /** The writer state once the property name, if any, is written. */
  function AfterName(st: seq<Frame>, writePropertyName: bool): seq<Frame>
    requires writePropertyName ==> InProperties(st)
  {
    if writePropertyName then st[..|st| - 1] + [ObjectFrame(true)] else st
  }

  /** Where SerializeNode may be called: between properties with a name, between items without. */
  predicate Slot(st: seq<Frame>, writePropertyName: bool) {
    if writePropertyName then InProperties(st) else InItems(st)
  }

  lemma ValueAfterName(st: seq<Frame>, writePropertyName: bool)
    requires Slot(st, writePropertyName)
    ensures BeginValue(AfterName(st, writePropertyName)) == Some(st)
  {
    if writePropertyName {
      assert st == st[..|st| - 1] + [ObjectFrame(false)];
    }
  }

  lemma NameThenValue(st: seq<Frame>, writePropertyName: bool, name: string, v: seq<Token>)
    requires Slot(st, writePropertyName)
    ensures WriterRun(st, (if writePropertyName then [PropertyName(name)] else []) + v)
      == WriterRun(AfterName(st, writePropertyName), v)
  {
    var prop := if writePropertyName then [PropertyName(name)] else [];
    if writePropertyName {
      RunSingle(st, PropertyName(name));
    } else {
      assert prop + v == v;
    }
    if writePropertyName {
      RunThen(st, prop, v, AfterName(st, writePropertyName));
    }
  }

  /** A container written where a value may start: its opening token, a body that returns to the open container, its closing token. */
  lemma Container(s: seq<Frame>, st: seq<Frame>, open: Token, frame: Frame, body: seq<Token>, close: Token)
    requires BeginValue(s) == Some(st)
    requires WriterStep(s, open) == Some(st + [frame])
    requires WriterRun(st + [frame], body) == Some(st + [frame])
    requires WriterStep(st + [frame], close) == Some(st)
    ensures WriterRun(s, [open] + body + [close]) == Some(st)
  {
    RunSingle(s, open);
    RunThen(s, [open], body, st + [frame]);
    RunSingle(st + [frame], close);
    RunThen(s, [open] + body, [close], st + [frame]);
  }

  lemma CloseFrameOf(st: seq<Frame>, f: Frame)
    ensures CloseFrame(st + [f], f) == Some(st)
  {
    assert (st + [f])[..|st|] == st;
  }

  lemma ObjectContainer(s: seq<Frame>, st: seq<Frame>, body: seq<Token>)
    requires BeginValue(s) == Some(st)
    requires WriterRun(st + [ObjectFrame(false)], body) == Some(st + [ObjectFrame(false)])
    ensures WriterRun(s, [StartObject] + body + [EndObject]) == Some(st)
  {
    CloseFrameOf(st, ObjectFrame(false));
    Container(s, st, StartObject, ObjectFrame(false), body, EndObject);
  }

  lemma ArrayContainer(s: seq<Frame>, st: seq<Frame>, body: seq<Token>)
    requires BeginValue(s) == Some(st)
    requires WriterRun(st + [ArrayFrame], body) == Some(st + [ArrayFrame])
    ensures WriterRun(s, [StartArray] + body + [EndArray]) == Some(st)
  {
    CloseFrameOf(st, ArrayFrame);
    Container(s, st, StartArray, ArrayFrame, body, EndArray);
  }

  lemma ConstructorContainer(s: seq<Frame>, st: seq<Frame>, name: string, body: seq<Token>)
    requires BeginValue(s) == Some(st)
    requires WriterRun(st + [ConstructorFrame], body) == Some(st + [ConstructorFrame])
    ensures WriterRun(s, [StartConstructor(name)] + body + [EndConstructor]) == Some(st)
  {
    CloseFrameOf(st, ConstructorFrame);
    Container(s, st, StartConstructor(name), ConstructorFrame, body, EndConstructor);
  }

  /** A property written inside an object: its name, then a single string. */
  lemma NamedString(st: seq<Frame>, name: string, value: string)
    requires InProperties(st)
    ensures WriterRun(st, [PropertyName(name), String(value)]) == Some(st)
  {
    NameThenValue(st, true, name, [String(value)]);
    ValueAfterName(st, true);
    RunSingle(AfterName(st, true), String(value));
    assert [PropertyName(name)] + [String(value)] == [PropertyName(name), String(value)];
  }

  /** The nodes a call with writePropertyName false can write: never a document, fragment or declaration. */
  predicate ItemNode(n: XmlNode) {
    !(n.Document? || n.DocumentFragment? || n.Declaration?)
  }

  lemma PairNests(st: seq<Frame>, name: string, value: string)
    requires InProperties(st)
    ensures WriterRun(st, DeclarationPair(name, value)) == Some(st)
  {
    if value != "" {
      NamedString(st, name, value);
    }
  }

  /** The declaration: its key, then an object of at most three string properties. */
  lemma DeclarationNests(st: seq<Frame>, n: XmlNode)
    requires n.Declaration? && InProperties(st)
    ensures WriterRun(st, LeafTokens(n, true).value) == Some(st)
  {
    var inner := st + [ObjectFrame(false)];
    var named := AfterName(st, true);
    var head := [PropertyName(DeclarationName), StartObject];
    var p1 := DeclarationPair("@version", n.version);
    var p2 := DeclarationPair("@encoding", n.encoding);
    var p3 := DeclarationPair("@standalone", n.standalone);
    RunSingle(st, PropertyName(DeclarationName));
    RunThen(st, [PropertyName(DeclarationName)], [StartObject], named);
    ValueAfterName(st, true);
    RunSingle(named, StartObject);
    assert [PropertyName(DeclarationName)] + [StartObject] == head;
    PairNests(inner, "@version", n.version);
    PairNests(inner, "@encoding", n.encoding);
    PairNests(inner, "@standalone", n.standalone);
    RunThen(st, head, p1, inner);
    RunThen(st, head + p1, p2, inner);
    RunThen(st, head + p1 + p2, p3, inner);
    CloseFrameOf(st, ObjectFrame(false));
    RunSingle(inner, EndObject);
    RunThen(st, head + p1 + p2 + p3, [EndObject], inner);
  }

  /** A value node: nothing when it is metadata, otherwise its key, if asked for, and its string. */
  lemma ValueNests(st: seq<Frame>, n: XmlNode, writePropertyName: bool)
    requires IsValueNode(n) && Slot(st, writePropertyName)
    ensures WriterRun(st, ValueTokens(n, writePropertyName).value) == Some(st)
  {
    if !IsJsonMetadata(n) {
      var name := GetPropertyName(n).value;
      NameThenValue(st, writePropertyName, name, [String(n.value)]);
      ValueAfterName(st, writePropertyName);
      RunSingle(AfterName(st, writePropertyName), String(n.value));
    }
  }

  lemma LeafNests(st: seq<Frame>, n: XmlNode, writePropertyName: bool)
    requires !n.HasChildren() && LeafTokens(n, writePropertyName).Success?
    requires Slot(st, writePropertyName) && (writePropertyName || ItemNode(n))
    ensures WriterRun(st, LeafTokens(n, writePropertyName).value) == Some(st)
  {
    match n
    case Comment(value) =>
      if writePropertyName {
        RunSingle(st, CommentToken(value));
      }
    case Declaration(_, _, _) => DeclarationNests(st, n);
    case Attribute(_, _, _) => ValueNests(st, n, writePropertyName);
    case Text(_) => ValueNests(st, n, writePropertyName);
    case CData(_) => ValueNests(st, n, writePropertyName);
    case ProcessingInstruction(_, _) => ValueNests(st, n, writePropertyName);
    case Whitespace(_) => ValueNests(st, n, writePropertyName);
    case SignificantWhitespace(_) => ValueNests(st, n, writePropertyName);
  }

  /** What a well-formed parent promises about its children. */
  predicate SoundChildren(p: XmlNode)
    requires p.HasChildren()
  {
    forall c | c in p.children :: WellFormed(c) && !(c.Document? || c.DocumentFragment?)
  }

  lemma WellFormedChildren(p: XmlNode)
    requires p.HasChildren() && WellFormed(p)
    ensures SoundChildren(p)
    ensures p.Element? ==> forall c | c in p.children :: ItemNode(c)
  {
  }

  /** Among the children of a document, only the declaration is filed under "?xml". */
  lemma DeclarationKey(c: XmlNode)
    requires WellFormed(c) && GetPropertyName(c) == Success(DeclarationName)
    requires c.Element? ==> |c.name| == 0 || c.name[0] != '?'
    ensures c.Declaration?
  {
    assert DeclarationName[0] == '?' && DeclarationName[1..] == "xml";
  }

  /** A document holds at most one declaration, so the group "?xml" has at most one member. */
  lemma {:induction false} DeclarationsAlone(nodes: seq<XmlNode>)
    requires TopLevelChildren(nodes) && forall c | c in nodes :: WellFormed(c)
    ensures |Members(nodes, DeclarationName)| <= 1
    decreases |nodes|
  {
    if nodes != [] {
      var prefix := nodes[..|nodes| - 1];
      var last := nodes[|nodes| - 1];
      assert nodes == prefix + [last];
      assert TopLevelChildren(prefix) by {
        forall i, j | 0 <= i < j < |prefix| ensures !(prefix[i].Declaration? && prefix[j].Declaration?) {
          assert prefix[i] == nodes[i] && prefix[j] == nodes[j];
        }
      }
      DeclarationsAlone(prefix);
      MembersAppend(prefix, last, DeclarationName);
      if GetPropertyName(last) == Success(DeclarationName) {
        assert last in nodes;
        NoSecondDeclaration(prefix, last);
      }
    }
  }

  /** Once a declaration is among the children, no later child is filed under "?xml". */
  lemma NoSecondDeclaration(prefix: seq<XmlNode>, last: XmlNode)
    requires TopLevelChildren(prefix + [last]) && forall c | c in prefix :: WellFormed(c)
    requires WellFormed(last) && GetPropertyName(last).Success? && GetPropertyName(last).value == DeclarationName
    ensures Members(prefix, DeclarationName) == []
  {
    var nodes := prefix + [last];
    assert last in nodes && nodes[|prefix|] == last;
    DeclarationKey(last);
    if Members(prefix, DeclarationName) != [] {
      var c := Members(prefix, DeclarationName)[0];
      MembersHaveKey(prefix, DeclarationName);
      assert c in Members(prefix, DeclarationName);
      assert c in prefix;
      var i :| 0 <= i < |prefix| && prefix[i] == c;
      assert nodes[i] == c && c in nodes;
      DeclarationKey(c);
      assert false;
    }
  }

  /** A group written as an array of two or more items never holds a declaration. */
  predicate ArraysHoldItems(g: Groups, keys: seq<string>)
    requires forall k | k in keys :: k in g.members
  {
    forall k | k in keys :: |g.members[k]| > 1 ==> forall c | c in g.members[k] :: ItemNode(c)
  }

  /** A child that shares its key with another child is never a declaration. */
  lemma SharedKeyIsItem(p: XmlNode, k: string, c: XmlNode)
    requires p.HasChildren() && WellFormed(p)
    requires |Members(p.children, k)| > 1 && c in Members(p.children, k)
    ensures ItemNode(c)
  {
    MembersHaveKey(p.children, k);
    WellFormedChildren(p);
    if c.Declaration? && !p.Element? {
      DeclarationsAlone(p.children);
    }
  }

  lemma GroupedArraysHoldItems(p: XmlNode)
    requires p.HasChildren() && WellFormed(p) && GroupNodes(p.children).Success?
    ensures GroupsFrom(p, GroupNodes(p.children).value, GroupNodes(p.children).value.order)
    ensures ArraysHoldItems(GroupNodes(p.children).value, GroupNodes(p.children).value.order)
  {
    var g := GroupNodes(p.children).value;
    GroupsWithin(p.children);
    GroupNodesGroups(p.children);
    forall k, c | k in g.order && |g.members[k]| > 1 && c in g.members[k]
      ensures ItemNode(c)
    {
      SharedKeyIsItem(p, k, c);
    }
  }

  /** SerializeNode leaves the writer where it found it, with every container it opened closed. */
  lemma {:induction false} NodeNests(st: seq<Frame>, n: XmlNode, writePropertyName: bool)
    requires WellFormed(n) && NodeTokens(n, writePropertyName).Success?
    requires Slot(st, writePropertyName) && (writePropertyName || ItemNode(n))
    ensures WriterRun(st, NodeTokens(n, writePropertyName).value) == Some(st)
    decreases n, 4
  {
    match n
    case Document(_) => GroupedNests(st, n);
    case DocumentFragment(_) => GroupedNests(st, n);
    case Element(_, _, _, _) => ElementNests(st, n, writePropertyName);
    case _ => LeafNests(st, n, writePropertyName);
  }

  /** The four element cases: a text leaf, null, a constructor, an object. */
  lemma {:induction false} ElementNests(st: seq<Frame>, n: XmlNode, writePropertyName: bool)
    requires n.Element? && WellFormed(n) && NodeTokens(n, writePropertyName).Success?
    requires Slot(st, writePropertyName)
    ensures WriterRun(st, NodeTokens(n, writePropertyName).value) == Some(st)
    decreases n, 3
  {
    var named := AfterName(st, writePropertyName);
    ValueAfterName(st, writePropertyName);
    if |ValueAttributes(n.attributes)| == 0 && |n.children| == 1 && n.children[0].Text? {
      NameThenValue(st, writePropertyName, n.name, [String(n.children[0].value)]);
      RunSingle(named, String(n.children[0].value));
    } else if |n.children| == 0 && |n.attributes| == 0 {
      NameThenValue(st, writePropertyName, n.name, [Null]);
      RunSingle(named, Null);
    } else if ConstructorChildCount(n.children) > 1 {
      ConstructorNests(named, st, n);
      NameThenValue(st, writePropertyName, n.name, ConstructorTokens(n).value);
    } else {
      ObjectNests(named, st, n);
      NameThenValue(st, writePropertyName, n.name, ObjectTokens(n).value);
    }
  }

  lemma {:induction false} ConstructorNests(named: seq<Frame>, st: seq<Frame>, n: XmlNode)
    requires n.Element? && WellFormed(n) && ConstructorTokens(n).Success?
    requires BeginValue(named) == Some(st)
    ensures WriterRun(named, ConstructorTokens(n).value) == Some(st)
    decreases n, 2
  {
    WellFormedChildren(n);
    var items := SeqTokens(n, n.children, false).value;
    SeqNests(st + [ConstructorFrame], n, n.children, false);
    ConstructorContainer(named, st, ConstructorName(n.children), items);
  }

  lemma {:induction false} ObjectNests(named: seq<Frame>, st: seq<Frame>, n: XmlNode)
    requires n.Element? && WellFormed(n) && ObjectTokens(n).Success?
    requires BeginValue(named) == Some(st)
    ensures WriterRun(named, ObjectTokens(n).value) == Some(st)
    decreases n, 2
  {
    var inner := st + [ObjectFrame(false)];
    var props := SeqTokens(n, n.attributes, true).value;
    var grouped := GroupedTokens(n).value;
    SeqNests(inner, n, n.attributes, true);
    GroupedNests(inner, n);
    RunThen(inner, props, grouped, inner);
    ObjectContainer(named, st, props + grouped);
    assert [StartObject] + props + grouped + [EndObject] == [StartObject] + (props + grouped) + [EndObject];
  }

  lemma {:induction false} SeqNests(st: seq<Frame>, parent: XmlNode, nodes: seq<XmlNode>, writePropertyName: bool)
    requires parent.HasChildren() && Within(parent, nodes) && SeqTokens(parent, nodes, writePropertyName).Success?
    requires Slot(st, writePropertyName)
    requires forall c | c in nodes :: WellFormed(c) && (writePropertyName || ItemNode(c))
    ensures WriterRun(st, SeqTokens(parent, nodes, writePropertyName).value) == Some(st)
    decreases parent, 0, 0, |nodes|
  {
    if nodes != [] {
      assert nodes[0] in nodes;
      NodeNests(st, nodes[0], writePropertyName);
      SeqNests(st, parent, nodes[1..], writePropertyName);
      RunThen(st, NodeTokens(nodes[0], writePropertyName).value,
        SeqTokens(parent, nodes[1..], writePropertyName).value, st);
    }
  }

  lemma {:induction false} GroupedNests(st: seq<Frame>, parent: XmlNode)
    requires parent.HasChildren() && WellFormed(parent) && GroupedTokens(parent).Success?
    requires InProperties(st)
    ensures WriterRun(st, GroupedTokens(parent).value) == Some(st)
    decreases parent, 1
  {
    var g := GroupNodes(parent.children).value;
    GroupedArraysHoldItems(parent);
    WellFormedChildren(parent);
    GroupsNests(st, parent, g, g.order);
  }

  lemma {:induction false} GroupsNests(st: seq<Frame>, parent: XmlNode, g: Groups, keys: seq<string>)
    requires parent.HasChildren() && SoundChildren(parent) && GroupsFrom(parent, g, keys)
    requires ArraysHoldItems(g, keys) && GroupsTokens(parent, g, keys).Success?
    requires InProperties(st)
    ensures WriterRun(st, GroupsTokens(parent, g, keys).value) == Some(st)
    decreases parent, 0, 1, |keys|
  {
    if keys != [] {
      assert keys[0] in keys;
      GroupNests(st, parent, keys[0], g.members[keys[0]]);
      GroupsNests(st, parent, g, keys[1..]);
      RunThen(st, GroupTokens(parent, keys[0], g.members[keys[0]]).value,
        GroupsTokens(parent, g, keys[1..]).value, st);
    }
  }

  lemma {:induction false} GroupNests(st: seq<Frame>, parent: XmlNode, key: string, group: seq<XmlNode>)
    requires parent.HasChildren() && SoundChildren(parent)
    requires |group| > 0 && forall c | c in group :: c in parent.children
    requires |group| > 1 ==> forall c | c in group :: ItemNode(c)
    requires GroupTokens(parent, key, group).Success? && InProperties(st)
    ensures WriterRun(st, GroupTokens(parent, key, group).value) == Some(st)
    decreases parent, 0, 1, 0
  {
    assert group[0] in group;
    var asArray := WriteAsArray(group);
    assert asArray.Success?;
    if !asArray.value {
      assert GroupTokens(parent, key, group).value == NodeTokens(group[0], true).value;
      assert WriterRun(st, NodeTokens(group[0], true).value) == Some(st) by {
        NodeNests(st, group[0], true);
      }
    } else {
      assert |group| == 1 ==> group[0].Element?;
      assert SeqTokens(parent, group, false).Success?;
      assert GroupTokens(parent, key, group).value
        == [PropertyName(key), StartArray] + SeqTokens(parent, group, false).value + [EndArray];
      assert WriterRun(st, [PropertyName(key), StartArray] + SeqTokens(parent, group, false).value + [EndArray]) == Some(st) by {
        ArrayNests(st, parent, key, group);
      }
    }
  }

  /** A group written as an array: its key, then every member as an item. */
  lemma {:induction false} ArrayNests(st: seq<Frame>, parent: XmlNode, key: string, group: seq<XmlNode>)
    requires parent.HasChildren() && SoundChildren(parent)
    requires forall c | c in group :: c in parent.children && ItemNode(c)
    requires SeqTokens(parent, group, false).Success? && InProperties(st)
    ensures WriterRun(st, [PropertyName(key), StartArray] + SeqTokens(parent, group, false).value + [EndArray]) == Some(st)
    decreases parent, 0, 0, |group| + 1
  {
    var items := SeqTokens(parent, group, false).value;
    ValueAfterName(st, true);
    SeqNests(st + [ArrayFrame], parent, group, false);
    ArrayContainer(AfterName(st, true), st, items);
    NameThenValue(st, true, key, [StartArray] + items + [EndArray]);
    assert [PropertyName(key), StartArray] + items + [EndArray] == [PropertyName(key)] + ([StartArray] + items + [EndArray]);
  }

  /**
   * WriteJson on a well-formed node writes a complete JSON document: every token is
   * accepted by the writer and every container is closed at the end.
   */
  lemma WriteJsonNests(n: XmlNode)
    requires WellFormed(n) && WriteJsonTokens(n).Success?
    ensures WriterRun([], WriteJsonTokens(n).value) == Some([])
  {
    var st: seq<Frame> := [];
    assert st + [ObjectFrame(false)] == [ObjectFrame(false)];
    NodeNests([ObjectFrame(false)], n, true);
    ObjectContainer(st, st, NodeTokens(n, true).value);
  }
}
