/**
 * The forward pass of XmlNodeConverter as the methods that write to a JsonWriter, each
 * proved to write exactly the tokens its specification function describes, or to raise
 * the exception the specification names.
 */
module Serialization {
  import opened Results
  import opened ConvertErrors
  import opened XmlDom
  import XmlConvert
  import opened ConverterNames
  import opened Grouping
  import opened JsonTokens
  import opened JsonWriting
  import opened SerializeSpec

  /** The tokens a successful specification prepends to the ones after it. */
  function Prepend(done: seq<Token>, r: Result<seq<Token>, ConvertError>): Result<seq<Token>, ConvertError> {
    match r
    case Success(ts) => Success(done + ts)
    case Failure(e) => Failure(e)
  }

  lemma PrependPrepend(a: seq<Token>, b: seq<Token>, r: Result<seq<Token>, ConvertError>)
    ensures Prepend(a, Prepend(b, r)) == Prepend(a + b, r)
  {
    match r
    case Success(ts) => assert a + (b + ts) == (a + b) + ts;
    case Failure(_) =>
  }

  lemma Associative(a: seq<Token>, b: seq<Token>, c: seq<Token>)
    ensures a + b + c == a + (b + c)
  {
  }

  lemma PrependNothing(r: Result<seq<Token>, ConvertError>)
    ensures Prepend([], r) == r
  {
    match r
    case Success(ts) => assert [] + ts == ts;
    case Failure(_) =>
  }

  lemma SeqTokensStep(parent: XmlNode, nodes: seq<XmlNode>, writePropertyName: bool)
    requires parent.HasChildren() && Within(parent, nodes) && nodes != []
    ensures SeqTokens(parent, nodes, writePropertyName) ==
      match NodeTokens(nodes[0], writePropertyName)
      case Failure(e) => Failure(e)
      case Success(first) => Prepend(first, SeqTokens(parent, nodes[1..], writePropertyName))
  {
  }

  /** GroupedTokens: the grouping's exception, or the enumeration of its groups. */
  lemma GroupedTokensUnfolds(node: XmlNode)
    requires node.HasChildren()
    ensures GroupNodes(node.children).Failure? ==>
      GroupedTokens(node).Failure? && GroupedTokens(node).error == GroupNodes(node.children).error
    ensures GroupNodes(node.children).Success? ==>
      && GroupsFrom(node, GroupNodes(node.children).value, GroupNodes(node.children).value.order)
      && GroupedTokens(node) == GroupsTokens(node, GroupNodes(node.children).value, GroupNodes(node.children).value.order)
  {
    if GroupNodes(node.children).Success? {
      GroupsWithin(node.children);
    }
  }

  lemma GroupsTokensStep(parent: XmlNode, g: Groups, keys: seq<string>)
    requires parent.HasChildren() && GroupsFrom(parent, g, keys) && keys != []
    ensures GroupsTokens(parent, g, keys) ==
      match GroupTokens(parent, keys[0], g.members[keys[0]])
      case Failure(e) => Failure(e)
      case Success(first) => Prepend(first, GroupsTokens(parent, g, keys[1..]))
  {
  }

  /** A call that wrote spec's tokens after before, or raised spec's exception. */
  predicate Written(now: seq<Token>, before: seq<Token>, outcome: Outcome<ConvertError>,
                    spec: Result<seq<Token>, ConvertError>) {
    match spec
    case Success(ts) => outcome == Pass && now == before + ts
    case Failure(e) => outcome == Fail(e)
  }

  /** WriteJson: the node serialized inside an object of its own. */
  method WriteJson(writer: JsonWriter, node: XmlNode) returns (outcome: Outcome<ConvertError>)
    modifies writer
    ensures Written(writer.tokens, old(writer.tokens), outcome, WriteJsonTokens(node))
  {
    writer.Write(StartObject);
    outcome := SerializeNode(writer, node, true);
    if outcome.Fail? {
      return;
    }
    writer.Write(EndObject);
  }

  /** SerializeNode: writes one node, its property name first when writePropertyName holds. */
  method SerializeNode(writer: JsonWriter, node: XmlNode, writePropertyName: bool) returns (outcome: Outcome<ConvertError>)
    modifies writer
    ensures Written(writer.tokens, old(writer.tokens), outcome, NodeTokens(node, writePropertyName))
    decreases node, 6
  {
    match node {
      case Document(_) =>
        outcome := SerializeGroupedNodes(writer, node);
      case DocumentFragment(_) =>
        outcome := SerializeGroupedNodes(writer, node);
      case Element(_, _, _, _) =>
        outcome := SerializeElement(writer, node, writePropertyName);
      case _ =>
        outcome := SerializeLeaf(writer, node, writePropertyName);
    }
  }

  /** The cases of SerializeNode for the node kinds without children. */
  method SerializeLeaf(writer: JsonWriter, node: XmlNode, writePropertyName: bool) returns (outcome: Outcome<ConvertError>)
    requires !node.HasChildren()
    modifies writer
    ensures Written(writer.tokens, old(writer.tokens), outcome, LeafTokens(node, writePropertyName))
  {
    match node {
    case Comment(value) =>
      if writePropertyName {
        writer.Write(CommentToken(value));
      }
      outcome := Pass;
    case Declaration(version, encoding, standalone) =>
      ghost var start := writer.tokens;
      writer.Write(PropertyName(DeclarationName));
      writer.Write(StartObject);
      ghost var acc := [PropertyName(DeclarationName), StartObject];
      assert writer.tokens == start + acc;
      WriteDeclarationAttribute(writer, "@version", version);
      Associative(start, acc, DeclarationPair("@version", version));
      acc := acc + DeclarationPair("@version", version);
      WriteDeclarationAttribute(writer, "@encoding", encoding);
      Associative(start, acc, DeclarationPair("@encoding", encoding));
      acc := acc + DeclarationPair("@encoding", encoding);
      WriteDeclarationAttribute(writer, "@standalone", standalone);
      Associative(start, acc, DeclarationPair("@standalone", standalone));
      acc := acc + DeclarationPair("@standalone", standalone);
      writer.Write(EndObject);
      Associative(start, acc, [EndObject]);
      outcome := Pass;
    case DocumentType(_) =>
      outcome := Fail(UnexpectedNodeType);
    case EntityReference(_) =>
      outcome := Fail(UnexpectedNodeType);
    case Attribute(_, _, _) | Text(_) | CData(_) | Whitespace(_) | SignificantWhitespace(_) | ProcessingInstruction(_, _) =>
      if !IsJsonMetadata(node) {
        if writePropertyName {
          writer.Write(PropertyName(GetPropertyName(node).value));
        }
        writer.Write(String(node.value));
      }
      outcome := Pass;
    }
  }

  /** One attribute of the declaration, written only when its value is neither null nor empty. */
  method WriteDeclarationAttribute(writer: JsonWriter, name: string, value: string)
    modifies writer
    ensures writer.tokens == old(writer.tokens) + DeclarationPair(name, value)
  {
    if value != "" {
      writer.Write(PropertyName(name));
      writer.Write(String(value));
    }
  }

  /** The XmlNodeType.Element case of SerializeNode. */
  method SerializeElement(writer: JsonWriter, node: XmlNode, writePropertyName: bool) returns (outcome: Outcome<ConvertError>)
    requires node.Element?
    modifies writer
    ensures Written(writer.tokens, old(writer.tokens), outcome, NodeTokens(node, writePropertyName))
    decreases node, 5
  {
    var name, attributes, children := node.name, node.attributes, node.children;
    ghost var start := writer.tokens;
    ghost var prop := if writePropertyName then [PropertyName(name)] else [];
    if writePropertyName {
      writer.Write(PropertyName(name));
    }
    assert writer.tokens == start + prop;
    if |ValueAttributes(attributes)| == 0 && |children| == 1 && children[0].Text? {
      writer.Write(String(children[0].value));
    } else if |children| == 0 && |attributes| == 0 {
      writer.Write(Null);
    } else if ConstructorChildCount(children) > 1 {
      outcome := SerializeElementConstructor(writer, node);
      if outcome.Fail? {
        return;
      }
      Associative(start, prop, ConstructorTokens(node).value);
    } else {
      outcome := SerializeElementObject(writer, node);
      if outcome.Fail? {
        return;
      }
      Associative(start, prop, ObjectTokens(node).value);
    }
    outcome := Pass;
  }

  /** The constructor case of the element branch: every child, without property names, as an argument. */
  method SerializeElementConstructor(writer: JsonWriter, node: XmlNode) returns (outcome: Outcome<ConvertError>)
    requires node.Element?
    modifies writer
    ensures Written(writer.tokens, old(writer.tokens), outcome, ConstructorTokens(node))
    decreases node, 4
  {
    ghost var start := writer.tokens;
    writer.Write(StartConstructor(ConstructorName(node.children)));
    outcome := SerializeSequence(writer, node, node.children, false);
    if outcome.Fail? {
      return;
    }
    ghost var items := SeqTokens(node, node.children, false).value;
    Associative(start, [StartConstructor(ConstructorName(node.children))], items);
    writer.Write(EndConstructor);
    Associative(start, [StartConstructor(ConstructorName(node.children))] + items, [EndConstructor]);
  }

  /** The last case of the element branch: an object of the attributes, then the grouped children. */
  method SerializeElementObject(writer: JsonWriter, node: XmlNode) returns (outcome: Outcome<ConvertError>)
    requires node.Element?
    modifies writer
    ensures Written(writer.tokens, old(writer.tokens), outcome, ObjectTokens(node))
    decreases node, 4
  {
    ghost var start := writer.tokens;
    writer.Write(StartObject);
    outcome := SerializeSequence(writer, node, node.attributes, true);
    if outcome.Fail? {
      return;
    }
    ghost var props := SeqTokens(node, node.attributes, true).value;
    Associative(start, [StartObject], props);
    outcome := SerializeGroupedNodes(writer, node);
    if outcome.Fail? {
      return;
    }
    ghost var body := GroupedTokens(node).value;
    Associative(start, [StartObject] + props, body);
    writer.Write(EndObject);
    Associative(start, [StartObject] + props + body, [EndObject]);
  }

  /** The loop `for (int i = 0; i < nodes.Count; i++) SerializeNode(writer, nodes[i], writePropertyName)`. */
  method SerializeSequence(writer: JsonWriter, parent: XmlNode, nodes: seq<XmlNode>, writePropertyName: bool)
    returns (outcome: Outcome<ConvertError>)
    requires parent.HasChildren() && Within(parent, nodes)
    modifies writer
    ensures Written(writer.tokens, old(writer.tokens), outcome, SeqTokens(parent, nodes, writePropertyName))
    decreases parent, 0
  {
    ghost var done: seq<Token> := [];
    var i := 0;
    assert nodes[0..] == nodes;
    PrependNothing(SeqTokens(parent, nodes, writePropertyName));
    while i < |nodes|
      invariant 0 <= i <= |nodes|
      invariant writer.tokens == old(writer.tokens) + done
      invariant SeqTokens(parent, nodes, writePropertyName) == Prepend(done, SeqTokens(parent, nodes[i..], writePropertyName))
    {
      assert nodes[i] in nodes;
      SeqAdvance(parent, nodes, i, writePropertyName, done);
      outcome := SerializeNode(writer, nodes[i], writePropertyName);
      if outcome.Fail? {
        return;
      }
      ghost var first := NodeTokens(nodes[i], writePropertyName).value;
      Associative(old(writer.tokens), done, first);
      done := done + first;
      i := i + 1;
    }
    outcome := Pass;
  }

  /** One turn of the loop over the nodes: the next node's exception ends it, or its tokens join those written. */
  lemma SeqAdvance(parent: XmlNode, nodes: seq<XmlNode>, i: nat, writePropertyName: bool, done: seq<Token>)
    requires parent.HasChildren() && Within(parent, nodes) && i < |nodes|
    requires SeqTokens(parent, nodes, writePropertyName) == Prepend(done, SeqTokens(parent, nodes[i..], writePropertyName))
    ensures var n := NodeTokens(nodes[i], writePropertyName);
      && (n.Failure? ==> SeqTokens(parent, nodes, writePropertyName).Failure? && SeqTokens(parent, nodes, writePropertyName).error == n.error)
      && (n.Success? ==> SeqTokens(parent, nodes, writePropertyName) == Prepend(done + n.value, SeqTokens(parent, nodes[i + 1..], writePropertyName)))
  {
    SeqTokensStep(parent, nodes[i..], writePropertyName);
    assert nodes[i..][0] == nodes[i] && nodes[i..][1..] == nodes[i + 1..];
    var n := NodeTokens(nodes[i], writePropertyName);
    if n.Success? {
      PrependPrepend(done, n.value, SeqTokens(parent, nodes[i + 1..], writePropertyName));
    }
  }

  /**
   * The first loop of SerializeGroupedNodes: each child's JSON key, the keys in the order
   * they first appear and, under each key, the children that have it.
   */
  method GroupChildNodes(children: seq<XmlNode>) returns (r: Result<Groups, ConvertError>)
    ensures r == GroupNodes(children)
  {
    var order: seq<string> := [];
    var nodesGroupedByName: map<string, seq<XmlNode>> := map[];
    var i := 0;
    while i < |children|
      invariant 0 <= i <= |children|
      invariant GroupNodes(children[..i]).Success?
      invariant GroupNodes(children[..i]).value == Groups(order, nodesGroupedByName)
    {
      var childNode := children[i];
      assert children[..i + 1] == children[..i] + [childNode];
      var nodeName := GetPropertyName(childNode);
      if nodeName.Failure? {
        GroupNodesFails(children);
        return Failure(nodeName.error);
      }
      var nodes: seq<XmlNode>;
      if nodeName.value in nodesGroupedByName {
        nodes := nodesGroupedByName[nodeName.value];
      } else {
        nodes := [];
        order := order + [nodeName.value];
      }
      nodesGroupedByName := nodesGroupedByName[nodeName.value := nodes + [childNode]];
      GroupNodesStep(children[..i], childNode);
      i := i + 1;
    }
    assert children[..i] == children;
    r := Success(Groups(order, nodesGroupedByName));
  }

  /** SerializeGroupedNodes: groups the children by JSON key, then writes each group. */
  method SerializeGroupedNodes(writer: JsonWriter, node: XmlNode) returns (outcome: Outcome<ConvertError>)
    requires node.HasChildren()
    modifies writer
    ensures Written(writer.tokens, old(writer.tokens), outcome, GroupedTokens(node))
    decreases node, 3
  {
    var grouped := GroupChildNodes(node.children);
    GroupedTokensUnfolds(node);
    if grouped.Failure? {
      return Fail(grouped.error);
    }
    outcome := SerializeGroups(writer, node, grouped.value);
  }

  /** The second loop of SerializeGroupedNodes: each group in turn, in the order of its key. */
  method SerializeGroups(writer: JsonWriter, node: XmlNode, groups: Groups) returns (outcome: Outcome<ConvertError>)
    requires node.HasChildren() && GroupsFrom(node, groups, groups.order)
    modifies writer
    ensures Written(writer.tokens, old(writer.tokens), outcome, GroupsTokens(node, groups, groups.order))
    decreases node, 2
  {
    var order, nodesGroupedByName := groups.order, groups.members;
    assert order[0..] == order;
    PrependNothing(GroupsTokens(node, groups, order));
    ghost var done: seq<Token> := [];
    var j := 0;
    while j < |order|
      invariant 0 <= j <= |order|
      invariant writer.tokens == old(writer.tokens) + done
      invariant GroupsTokens(node, groups, order) == Prepend(done, GroupsTokens(node, groups, order[j..]))
    {
      GroupsAdvance(node, groups, order, j, done);
      outcome := SerializeGroup(writer, node, order[j], nodesGroupedByName[order[j]]);
      if outcome.Fail? {
        return;
      }
      ghost var first := GroupTokens(node, order[j], nodesGroupedByName[order[j]]).value;
      Associative(old(writer.tokens), done, first);
      done := done + first;
      j := j + 1;
    }
    outcome := Pass;
  }

  /** One turn of the enumeration loop: the next group's exception ends it, or its tokens join those written. */
  lemma GroupsAdvance(node: XmlNode, groups: Groups, order: seq<string>, j: nat, done: seq<Token>)
    requires node.HasChildren() && GroupsFrom(node, groups, order) && j < |order|
    requires GroupsTokens(node, groups, order) == Prepend(done, GroupsTokens(node, groups, order[j..]))
    ensures var g := GroupTokens(node, order[j], groups.members[order[j]]);
      && (g.Failure? ==> GroupsTokens(node, groups, order).Failure? && GroupsTokens(node, groups, order).error == g.error)
      && (g.Success? ==> GroupsTokens(node, groups, order) == Prepend(done + g.value, GroupsTokens(node, groups, order[j + 1..])))
  {
    GroupsTokensStep(node, groups, order[j..]);
    assert order[j..][0] == order[j] && order[j..][1..] == order[j + 1..];
    var g := GroupTokens(node, order[j], groups.members[order[j]]);
    if g.Success? {
      PrependPrepend(done, g.value, GroupsTokens(node, groups, order[j + 1..]));
    }
  }

  /** The body of the enumeration loop in SerializeGroupedNodes, for one key and its group. */
  method SerializeGroup(writer: JsonWriter, node: XmlNode, key: string, groupedNodes: seq<XmlNode>)
    returns (outcome: Outcome<ConvertError>)
    requires node.HasChildren() && |groupedNodes| > 0 && forall c | c in groupedNodes :: c in node.children
    modifies writer
    ensures Written(writer.tokens, old(writer.tokens), outcome, GroupTokens(node, key, groupedNodes))
    decreases node, 1
  {
    var writeArray: bool;
    if |groupedNodes| == 1 {
      var singleNode := groupedNodes[0];
      var jsonArrayAttribute := ArrayMarker(singleNode);
      if jsonArrayAttribute.Some? {
        var b := XmlConvert.ToBoolean(jsonArrayAttribute.value.value);
        if b.None? {
          return Fail(InvalidBoolean);
        }
        writeArray := b.value;
      } else {
        writeArray := false;
      }
    } else {
      writeArray := true;
    }
    if !writeArray {
      assert groupedNodes[0] in groupedNodes;
      outcome := SerializeNode(writer, groupedNodes[0], true);
    } else {
      writer.Write(PropertyName(key));
      writer.Write(StartArray);
      outcome := SerializeSequence(writer, node, groupedNodes, false);
      if outcome.Fail? {
        return;
      }
      writer.Write(EndArray);
    }
  }
}
