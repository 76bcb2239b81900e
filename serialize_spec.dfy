/**
 * The tokens the forward pass (XmlNode to JSON) writes, as functions of the node.
 * NodeTokens is SerializeNode, GroupedTokens is SerializeGroupedNodes, GroupsTokens is
 * its enumeration of the groups and SeqTokens a loop over a list of nodes; each yields
 * the token sequence written, or the exception raised.
 */
module SerializeSpec {
  import opened Results
  import opened ConvertErrors
  import opened XmlDom
  import XmlConvert
  import opened ConverterNames
  import opened Grouping
  import opened JsonTokens

  /** Attributes["Array", JsonNamespaceUri]: the first attribute with that local name and namespace. */
  function FindAttribute(attributes: seq<XmlNode>, localName: string, namespaceUri: string): (r: Option<XmlNode>)
    ensures r.Some? ==>
      && r.value in attributes && r.value.Attribute?
      && LocalName(r.value.name) == localName && r.value.namespaceUri == namespaceUri
    ensures r.None? ==> forall a | a in attributes && a.Attribute? ::
      !(LocalName(a.name) == localName && a.namespaceUri == namespaceUri)
  {
    if attributes == [] then None
    else
      var a := attributes[0];
      if a.Attribute? && LocalName(a.name) == localName && a.namespaceUri == namespaceUri then Some(a)
      else FindAttribute(attributes[1..], localName, namespaceUri)
  }

  /** The json:Array attribute of a node; only elements have attributes. */
  function ArrayMarker(n: XmlNode): Option<XmlNode> {
    if n.Element? then FindAttribute(n.attributes, "Array", JsonNamespaceUri) else None
  }

  /**
   * Whether a group is written as a JSON array: always for two or more nodes; for a single
   * node only when its json:Array attribute reads as true, a value XmlConvert.ToBoolean
   * rejects raising FormatException.
   */
  function WriteAsArray(group: seq<XmlNode>): (r: Result<bool, ConvertError>)
    requires |group| > 0
    ensures |group| > 1 ==> r == Success(true)
    ensures r.Failure? <==>
      |group| == 1 && ArrayMarker(group[0]).Some? && XmlConvert.ToBoolean(ArrayMarker(group[0]).value.value).None?
    ensures r.Failure? ==> r.error == InvalidBoolean
    ensures |group| == 1 && r == Success(true) ==>
      ArrayMarker(group[0]).Some? && XmlConvert.ToBoolean(ArrayMarker(group[0]).value.value) == Some(true)
  {
    if |group| == 1 then
      match ArrayMarker(group[0])
      case None => Success(false)
      case Some(a) =>
        match XmlConvert.ToBoolean(a.value)
        case None => Failure(InvalidBoolean)
        case Some(b) => Success(b)
    else Success(true)
  }

  /** An element whose name starts with '-': a JSON constructor argument. */
  predicate IsConstructorChild(n: XmlNode) {
    n.Element? && |n.name| > 0 && n.name[0] == '-'
  }

  /** ChildNodes.OfType<XmlElement>().Where(x => x.Name.StartsWith("-")).Count(). */
  function ConstructorChildCount(nodes: seq<XmlNode>): (count: nat)
    ensures count <= |nodes|
  {
    if nodes == [] then 0
    else (if IsConstructorChild(nodes[0]) then 1 else 0) + ConstructorChildCount(nodes[1..])
  }

  /** The name of the first element whose name starts with '-', without the '-'; "" when there is none. */
  function ConstructorName(nodes: seq<XmlNode>): string {
    if nodes == [] then ""
    else if IsConstructorChild(nodes[0]) then nodes[0].name[1..]
    else ConstructorName(nodes[1..])
  }

  /** The constructor is named after the first constructor child in document order. */
  lemma {:induction false} ConstructorNameIsFirst(nodes: seq<XmlNode>)
    requires ConstructorChildCount(nodes) > 0
    ensures exists i | 0 <= i < |nodes| ::
      && IsConstructorChild(nodes[i]) && ConstructorName(nodes) == nodes[i].name[1..]
      && forall j | 0 <= j < i :: !IsConstructorChild(nodes[j])
  {
    if !IsConstructorChild(nodes[0]) {
      ConstructorNameIsFirst(nodes[1..]);
      var i :| 0 <= i < |nodes[1..]| && IsConstructorChild(nodes[1..][i]) && ConstructorName(nodes[1..]) == nodes[1..][i].name[1..]
        && forall j | 0 <= j < i :: !IsConstructorChild(nodes[1..][j]);
      assert IsConstructorChild(nodes[i + 1]);
      assert forall j | 0 <= j < i + 1 :: !IsConstructorChild(nodes[j]) by {
        forall j | 0 <= j < i + 1 ensures !IsConstructorChild(nodes[j]) {
          if j > 0 { assert nodes[j] == nodes[1..][j - 1]; }
        }
      }
    }
  }

  /** Namespace metadata the converter itself adds: the xmlns:json declaration and json:* attributes. */
  predicate IsJsonMetadata(n: XmlNode)
    requires IsValueNode(n)
  {
    (n.Prefix() == "xmlns" && n.value == JsonNamespaceUri) || n.NamespaceURI() == JsonNamespaceUri
  }

  /** One declaration attribute, written only when its value is neither null nor empty. */
  function DeclarationPair(name: string, value: string): seq<Token> {
    if value == "" then [] else [PropertyName(name), String(value)]
  }

  /** SerializeNode for a node kind without children. */
  function LeafTokens(n: XmlNode, writePropertyName: bool): (r: Result<seq<Token>, ConvertError>)
    requires !n.HasChildren()
    ensures r.Failure? <==> n.DocumentType? || n.EntityReference?
    ensures r.Failure? ==> r.error == UnexpectedNodeType
  {
    match n
    case Comment(value) => Success(if writePropertyName then [CommentToken(value)] else [])
    case Declaration(version, encoding, standalone) =>
      Success([PropertyName(DeclarationName), StartObject]
        + DeclarationPair("@version", version) + DeclarationPair("@encoding", encoding)
        + DeclarationPair("@standalone", standalone) + [EndObject])
    case DocumentType(_) => Failure(UnexpectedNodeType)
    case EntityReference(_) => Failure(UnexpectedNodeType)
    case Attribute(_, _, value) => ValueTokens(n, writePropertyName)
    case Text(value) => ValueTokens(n, writePropertyName)
    case CData(value) => ValueTokens(n, writePropertyName)
    case ProcessingInstruction(_, value) => ValueTokens(n, writePropertyName)
    case Whitespace(value) => ValueTokens(n, writePropertyName)
    case SignificantWhitespace(value) => ValueTokens(n, writePropertyName)
  }

  /** The node kinds written as a name and a string value. */
  predicate IsValueNode(n: XmlNode) {
    n.Attribute? || n.Text? || n.CData? || n.ProcessingInstruction? || n.Whitespace? || n.SignificantWhitespace?
  }

  /** SerializeNode for the node kinds written as a string value, unless they are JSON metadata. */
  function ValueTokens(n: XmlNode, writePropertyName: bool): (r: Result<seq<Token>, ConvertError>)
    requires IsValueNode(n)
    ensures r.Success?
  {
    if IsJsonMetadata(n) then Success([])
    else Success((if writePropertyName then [PropertyName(GetPropertyName(n).value)] else []) + [String(n.value)])
  }

  /** SerializeNode(writer, n, writePropertyName). */
  function NodeTokens(n: XmlNode, writePropertyName: bool): (r: Result<seq<Token>, ConvertError>)
    decreases n, 3
  {
    match n
    case Document(_) => GroupedTokens(n)
    case DocumentFragment(_) => GroupedTokens(n)
    case Element(name, _, attributes, children) =>
      var prop := if writePropertyName then [PropertyName(name)] else [];
      if |ValueAttributes(attributes)| == 0 && |children| == 1 && children[0].Text? then
        Success(prop + [String(children[0].value)])
      else if |children| == 0 && |attributes| == 0 then
        Success(prop + [Null])
      else if ConstructorChildCount(children) > 1 then
        var body :- ConstructorTokens(n);
        Success(prop + body)
      else
        var body :- ObjectTokens(n);
        Success(prop + body)
    case _ => LeafTokens(n, writePropertyName)
  }

  /** The constructor case of the element branch: every child, without property names, as an argument. */
  function ConstructorTokens(n: XmlNode): (r: Result<seq<Token>, ConvertError>)
    requires n.Element?
    decreases n, 2
  {
    var items :- SeqTokens(n, n.children, false);
    Success([StartConstructor(ConstructorName(n.children))] + items + [EndConstructor])
  }

  /** The last case of the element branch: an object of the attributes, then the grouped children. */
  function ObjectTokens(n: XmlNode): (r: Result<seq<Token>, ConvertError>)
    requires n.Element?
    decreases n, 2
  {
    var props :- SeqTokens(n, n.attributes, true);
    var body :- GroupedTokens(n);
    Success([StartObject] + props + body + [EndObject])
  }

  /** The nodes may be serialized on behalf of parent: its children, or an element's attributes. */
  predicate Within(parent: XmlNode, nodes: seq<XmlNode>)
    requires parent.HasChildren()
  {
    forall c | c in nodes :: c in parent.children || (parent.Element? && c in parent.attributes)
  }

  /** A loop calling SerializeNode(writer, nodes[i], writePropertyName) for each node in turn. */
  function SeqTokens(parent: XmlNode, nodes: seq<XmlNode>, writePropertyName: bool): (r: Result<seq<Token>, ConvertError>)
    requires parent.HasChildren() && Within(parent, nodes)
    decreases parent, 0, 0, |nodes|
  {
    if nodes == [] then Success([])
    else
      assert nodes[0] in nodes;
      var first :- NodeTokens(nodes[0], writePropertyName);
      var rest :- SeqTokens(parent, nodes[1..], writePropertyName);
      Success(first + rest)
  }

  /** SerializeGroupedNodes(writer, parent). */
  function GroupedTokens(parent: XmlNode): (r: Result<seq<Token>, ConvertError>)
    requires parent.HasChildren()
    decreases parent, 1
  {
    match GroupNodes(parent.children)
    case Failure(e) => Failure(e)
    case Success(g) =>
      GroupsWithin(parent.children);
      GroupsTokens(parent, g, g.order)
  }

  /** The groups of keys each enumerated by the second loop of SerializeGroupedNodes. */
  predicate GroupsFrom(parent: XmlNode, g: Groups, keys: seq<string>)
    requires parent.HasChildren()
  {
    forall k | k in keys :: k in g.members && |g.members[k]| > 0 && forall c | c in g.members[k] :: c in parent.children
  }

  /** One group: a single node under its own key, or the key and an array of every node in the group. */
  function GroupTokens(parent: XmlNode, key: string, group: seq<XmlNode>): (r: Result<seq<Token>, ConvertError>)
    requires parent.HasChildren() && |group| > 0 && forall c | c in group :: c in parent.children
    decreases parent, 0, 1, 0
  {
    var asArray :- WriteAsArray(group);
    assert group[0] in group;
    if !asArray then NodeTokens(group[0], true)
    else
      var items :- SeqTokens(parent, group, false);
      Success([PropertyName(key), StartArray] + items + [EndArray])
  }

  /** The enumeration of the groups of keys, in order. */
  function GroupsTokens(parent: XmlNode, g: Groups, keys: seq<string>): (r: Result<seq<Token>, ConvertError>)
    requires parent.HasChildren() && GroupsFrom(parent, g, keys)
    decreases parent, 0, 1, |keys|
  {
    if keys == [] then Success([])
    else
      var first :- GroupTokens(parent, keys[0], g.members[keys[0]]);
      var rest :- GroupsTokens(parent, g, keys[1..]);
      Success(first + rest)
  }

  /** WriteJson(writer, n): the node's tokens inside one enclosing object. */
  function WriteJsonTokens(n: XmlNode): (r: Result<seq<Token>, ConvertError>) {
    var body :- NodeTokens(n, true);
    Success([StartObject] + body + [EndObject])
  }
}
