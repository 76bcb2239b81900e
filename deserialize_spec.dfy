/**
 * The reverse pass (JSON to XmlNode) as functions of the token stream. Each function
 * takes the reader's position, the node being filled and the namespace manager's
 * scopes, and yields where the reader stops, the node with what was appended to it and
 * the scopes, or the exception raised. ValueSpec is DeserializeValue, ElementSpec its
 * element branch, NodeSpec DeserializeNode, ItemsSpec the loops that read the items of
 * an array or a constructor, and AttributesSpec and DeclarationSpec the two loops that
 * read properties without recursing.
 */
module DeserializeSpec {
  import opened Results
  import opened ConvertErrors
  import opened XmlDom
  import opened ConverterNames
  import opened JsonTokens
  import opened JsonReading
  import opened Namespaces

  /** Where the reader stands, the node being filled, and the manager's scopes. */
  datatype Progress = Progress(pos: nat, node: XmlNode, scopes: Scopes)

  /** A null namespace URI, as XmlDocument takes it: the empty namespace. */
  function OrEmpty(uri: Option<string>): string {
    if uri.Some? then uri.value else ""
  }

  /**
   * CreateElement: an empty element named elementName, in the namespace the manager binds
   * elementPrefix to, or in no namespace when the name has no prefix.
   */
  function CreateElement(elementName: string, elementPrefix: string, scopes: Scopes): (e: XmlNode)
    ensures e.Element? && e.name == elementName && e.attributes == [] && e.children == []
    ensures elementPrefix == "" ==> e.namespaceUri == ""
    ensures elementPrefix != "" && Lookup(scopes, elementPrefix).Some? ==>
      e.namespaceUri == Lookup(scopes, elementPrefix).value
  {
    Element(elementName, if elementPrefix != "" then OrEmpty(Lookup(scopes, elementPrefix)) else "", [], [])
  }

  /**
   * document.CreateAttribute for one collected attribute: a prefixed name in the namespace
   * its prefix is bound to; an unprefixed one in no namespace, except "xmlns" itself.
   */
  function CreateAttribute(name: string, value: string, scopes: Scopes): (a: XmlNode)
    ensures a.Attribute? && a.name == name && a.value == value
  {
    var prefix := GetPrefix(name);
    var uri := if prefix != "" then OrEmpty(Lookup(scopes, prefix))
      else if name == "xmlns" then XmlnsNamespace else "";
    Attribute(name, uri, value)
  }

  /** The attributes of the dictionary, in the order they were added. */
  function CreateAttributes(pairs: seq<(string, string)>, scopes: Scopes): (attributes: seq<XmlNode>)
    ensures |attributes| == |pairs|
  {
    if pairs == [] then []
    else
      var last := pairs[|pairs| - 1];
      CreateAttributes(pairs[..|pairs| - 1], scopes) + [CreateAttribute(last.0, last.1, scopes)]
  }

  /**
   * The element DeserializeValue creates for name, in the scopes once the attributes are
   * read, with the attributes of pairs set on it.
   */
  function CreatedElement(name: string, pairs: seq<(string, string)>, scopes: Scopes): (e: XmlNode)
    ensures e.Element? && e.name == name && e.children == [] && |e.attributes| == |pairs|
    ensures e.namespaceUri == CreateElement(name, GetPrefix(name), scopes).namespaceUri
  {
    var created := CreateElement(name, GetPrefix(name), scopes);
    created.(attributes := CreateAttributes(pairs, scopes))
  }

  /** Whether the dictionary already has the key. */
  predicate HasKey(pairs: seq<(string, string)>, key: string) {
    exists i | 0 <= i < |pairs| :: pairs[i].0 == key
  }

  /** document.DocumentElement != null. */
  predicate HasDocumentElement(n: XmlNode)
    requires n.HasChildren()
  {
    exists i | 0 <= i < |n.children| :: n.children[i].Element?
  }

  /** The value tokens that DeserializeValue does not read attributes for. */
  predicate IsInline(t: Token) {
    IsScalar(t) || t == Null || t.StartConstructor?
  }

  /** The state of the attribute loop: the attributes collected and why the loop stopped. */
  datatype AttributeState = AttributeState(
    pos: nat, pairs: seq<(string, string)>, scopes: Scopes, finishedAttributes: bool, finishedElement: bool)

  /**
   * The attribute loop of DeserializeValue: leading "@" properties are collected, in order,
   * and each namespace declaration among them is added to the manager at once; the loop
   * stops at the first other property name, at the end of the object, or at the end of
   * the stream.
   */
  function AttributesSpec(ts: seq<Token>, pos: nat, pairs: seq<(string, string)>, scopes: Scopes): (r: Result<AttributeState, ConvertError>)
    requires pos <= |ts|
    ensures r.Success? ==> pos <= r.value.pos <= |ts| && |r.value.scopes| == |scopes|
    ensures r.Success? && r.value.finishedAttributes ==> r.value.pos < |ts| && ts[r.value.pos].PropertyName?
    ensures r.Success? && r.value.finishedElement ==> r.value.pos < |ts| && ts[r.value.pos] == EndObject
    ensures r.Success? && !r.value.finishedAttributes && !r.value.finishedElement ==> r.value.pos == |ts|
    decreases |ts| - pos
  {
    var p := Next(ts, pos);
    if p == |ts| then Success(AttributeState(p, pairs, scopes, false, false))
    else
      match ts[p]
      case PropertyName(name) =>
        if |name| == 0 then Failure(EmptyPropertyName)
        else if name[0] == '@' then
          var attributeName := name[1..];
          var q := Next(ts, p);
          var attributeValue :- ValueText(Current(ts, q));
          if HasKey(pairs, attributeName) then Failure(DuplicateAttribute)
          else
            var declared := match IsNamespaceAttribute(attributeName)
              case Some(prefix) => Declare(scopes, prefix, attributeValue)
              case None => scopes;
            AttributesSpec(ts, q, pairs + [(attributeName, attributeValue)], declared)
        else Success(AttributeState(p, pairs, scopes, true, false))
      case EndObject => Success(AttributeState(p, pairs, scopes, false, true))
      case _ => Failure(UnexpectedToken)
  }

  /** Where the "?xml" loop stopped and the fields it read; None is null. */
  datatype DeclarationFields = DeclarationFields(pos: nat, version: Option<string>, encoding: Option<string>, standalone: Option<string>)

  /** The "?xml" loop: "@version", "@encoding" and "@standalone" until the end of the object. */
  function DeclarationSpec(ts: seq<Token>, pos: nat, version: Option<string>, encoding: Option<string>, standalone: Option<string>): (r: Result<DeclarationFields, ConvertError>)
    requires pos <= |ts|
    ensures r.Success? ==> pos <= r.value.pos <= |ts|
    decreases |ts| - pos
  {
    var p := Next(ts, pos);
    if p == |ts| || ts[p] == EndObject then Success(DeclarationFields(p, version, encoding, standalone))
    else
      var key :- ValueText(ts[p]);
      var q := Next(ts, p);
      if key == "@version" then
        var v :- ValueText(Current(ts, q));
        DeclarationSpec(ts, q, Some(v), encoding, standalone)
      else if key == "@encoding" then
        var v :- ValueText(Current(ts, q));
        DeclarationSpec(ts, q, version, Some(v), standalone)
      else if key == "@standalone" then
        var v :- ValueText(Current(ts, q));
        DeclarationSpec(ts, q, version, encoding, Some(v))
      else Failure(UnexpectedDeclarationProperty)
  }

  /** The text node kinds DeserializeValue recognises by their reserved names. */
  function TextNode(propertyName: string, text: string): XmlNode
    requires propertyName in {TextName, CDataName, WhitespaceName, SignificantWhitespaceName}
  {
    if propertyName == TextName then Text(text)
    else if propertyName == CDataName then CData(text)
    else if propertyName == WhitespaceName then Whitespace(text)
    else SignificantWhitespace(text)
  }

  /** DeserializeValue(reader, document, manager, propertyName, node), the reader on the value. */
  function ValueSpec(ts: seq<Token>, pos: nat, propertyName: string, node: XmlNode, scopes: Scopes): (r: Result<Progress, ConvertError>)
    requires pos <= |ts| && node.HasChildren()
    ensures r.Success? ==> pos <= r.value.pos <= |ts| && r.value.node.HasChildren()
    ensures r.Success? ==> r.value.node.(children := node.children) == node
    decreases |ts| - pos, 6
  {
    // The four text keys all start with '#'; testing that first spares comparing plain names with each.
    if |propertyName| > 0 && propertyName[0] == '#' && propertyName in {TextName, CDataName, WhitespaceName, SignificantWhitespaceName} then
      var text :- ValueText(Current(ts, pos));
      Success(Progress(pos, AppendChild(node, TextNode(propertyName, text)), scopes))
    else if |propertyName| > 0 && propertyName[0] == '?' then
      if propertyName == DeclarationName then
        var d :- DeclarationSpec(ts, pos, None, None, None);
        var declaration := Declaration(OrEmpty(d.version), OrEmpty(d.encoding), OrEmpty(d.standalone));
        Success(Progress(d.pos, AppendChild(node, declaration), scopes))
      else
        var text :- ValueText(Current(ts, pos));
        Success(Progress(pos, AppendChild(node, ProcessingInstruction(propertyName[1..], text)), scopes))
    else ElementSpec(ts, pos, propertyName, node, scopes)
  }

  /**
   * The element branch of DeserializeValue: a nested array becomes one element holding
   * an element per item; otherwise the attributes are read first, and the element is
   * created once their namespace declarations are in the manager: a scalar becomes its
   * one text child, null leaves it empty, and an object or a constructor is read into it
   * inside a scope of its own.
   */
  function ElementSpec(ts: seq<Token>, pos: nat, propertyName: string, node: XmlNode, scopes: Scopes): (r: Result<Progress, ConvertError>)
    requires pos <= |ts| && node.HasChildren()
    ensures r.Success? ==> pos <= r.value.pos <= |ts| && r.value.node.HasChildren()
    ensures r.Success? ==> r.value.node.(children := node.children) == node
    decreases |ts| - pos, 5
  {
    var elementPrefix := GetPrefix(propertyName);
    if Current(ts, pos) == StartArray then
      var nested := CreateElement(propertyName, elementPrefix, scopes);
      var done :- ItemsSpec(ts, pos, EndArray, propertyName, nested, scopes);
      Success(Progress(done.pos, AppendChild(node, done.node), done.scopes))
    else
      var attrs :- if IsInline(Current(ts, pos)) then Success(AttributeState(pos, [], scopes, false, false))
        else AttributesSpec(ts, pos, [], scopes);
      ElementBodySpec(ts, attrs, propertyName, node)
  }

  /**
   * The element branch once its attributes are read: the element created with them, and
   * its content, if any, read.
   */
  function ElementBodySpec(ts: seq<Token>, attrs: AttributeState, propertyName: string, node: XmlNode): (r: Result<Progress, ConvertError>)
    requires attrs.pos <= |ts| && node.HasChildren()
    ensures r.Success? ==> attrs.pos <= r.value.pos <= |ts| && r.value.node.HasChildren()
    ensures r.Success? ==> r.value.node.(children := node.children) == node
    decreases |ts| - attrs.pos, 4
  {
    var element := CreatedElement(propertyName, attrs.pairs, attrs.scopes);
    var t := Current(ts, attrs.pos);
    if IsScalar(t) then
      Success(Progress(attrs.pos, AppendChild(node, AppendChild(element, Text(XmlText(t)))), attrs.scopes))
    else if t == Null || attrs.finishedElement then
      Success(Progress(attrs.pos, AppendChild(node, element), attrs.scopes))
    else
      var inner :- NodeSpec(ts, attrs.pos, element, Push(attrs.scopes));
      Success(Progress(inner.pos, AppendChild(node, inner.node), Pop(inner.scopes)))
  }

  /** DeserializeNode(reader, document, manager, node): passes of its do-while loop until one returns. */
  function NodeSpec(ts: seq<Token>, pos: nat, node: XmlNode, scopes: Scopes): (r: Result<Progress, ConvertError>)
    requires pos <= |ts| && node.HasChildren()
    ensures r.Success? ==> pos <= r.value.pos <= |ts| && r.value.node.HasChildren()
    ensures r.Success? ==> r.value.node.(children := node.children) == node
    decreases |ts| - pos, 3
  {
    var pass :- NodeCaseSpec(ts, pos, node, scopes);
    if pass.returned then Success(pass.progress)
    else NodeContinue(ts, pos, pass.progress)
  }

  /** The outcome of one pass of DeserializeNode's loop: where it stopped, and whether it returned. */
  datatype LoopPass = LoopPass(progress: Progress, returned: bool)

  /**
   * The switch of DeserializeNode: a property is read into node (a second one at document
   * level once the document has an element is refused), the items of a constructor
   * become elements named "-" and the constructor's name, the end of an object or array
   * returns, and any other token is refused.
   */
  function NodeCaseSpec(ts: seq<Token>, pos: nat, node: XmlNode, scopes: Scopes): (r: Result<LoopPass, ConvertError>)
    requires pos <= |ts| && node.HasChildren()
    ensures r.Success? ==> pos <= r.value.progress.pos <= |ts| && r.value.progress.node.HasChildren()
    ensures r.Success? && !r.value.returned ==> pos < r.value.progress.pos
    ensures r.Success? ==> r.value.progress.node.(children := node.children) == node
    decreases |ts| - pos, 2
  {
    match Current(ts, pos)
    case PropertyName(propertyName) =>
      if node.Document? && HasDocumentElement(node) then Failure(MultipleRootProperties)
      else
        var done :- PropertySpec(ts, pos, propertyName, node, scopes);
        Success(LoopPass(done, false))
    case StartConstructor(constructorName) =>
      var done :- ItemsSpec(ts, pos, EndConstructor, "-" + constructorName, node, scopes);
      Success(LoopPass(done, false))
    case EndObject => Success(LoopPass(Progress(pos, node, scopes), true))
    case EndArray => Success(LoopPass(Progress(pos, node, scopes), true))
    case _ => Failure(UnexpectedToken)
  }

  /** The property case of DeserializeNode: its value read, or each item of an array value. */
  function PropertySpec(ts: seq<Token>, pos: nat, propertyName: string, node: XmlNode, scopes: Scopes): (r: Result<Progress, ConvertError>)
    requires pos < |ts| && node.HasChildren()
    ensures r.Success? ==> pos < r.value.pos <= |ts| && r.value.node.HasChildren()
    ensures r.Success? ==> r.value.node.(children := node.children) == node
    decreases |ts| - pos, 1
  {
    var p := Next(ts, pos);
    if Current(ts, p) == StartArray then ItemsSpec(ts, p, EndArray, propertyName, node, scopes)
    else ValueSpec(ts, p, propertyName, node, scopes)
  }

  /**
   * The test of DeserializeNode's loop: go on at a property name without reading (the
   * attribute loop has already read it), otherwise read and go on while there is a token.
   */
  function NodeContinue(ts: seq<Token>, pos: nat, done: Progress): (r: Result<Progress, ConvertError>)
    requires pos < done.pos <= |ts| && done.node.HasChildren()
    ensures r.Success? ==> done.pos <= r.value.pos <= |ts| && r.value.node.HasChildren()
    ensures r.Success? ==> r.value.node.(children := done.node.children) == done.node
    decreases |ts| - pos, 0
  {
    if Current(ts, done.pos).PropertyName? then NodeSpec(ts, done.pos, done.node, done.scopes)
    else if Next(ts, done.pos) < |ts| then NodeSpec(ts, Next(ts, done.pos), done.node, done.scopes)
    else Success(done.(pos := Next(ts, done.pos)))
  }

  /** while (reader.Read() && reader.TokenType != end) DeserializeValue(reader, ..., propertyName, node). */
  function ItemsSpec(ts: seq<Token>, pos: nat, end: Token, propertyName: string, node: XmlNode, scopes: Scopes): (r: Result<Progress, ConvertError>)
    requires pos <= |ts| && node.HasChildren()
    ensures r.Success? ==> Next(ts, pos) <= r.value.pos <= |ts| && r.value.node.HasChildren()
    ensures r.Success? ==> r.value.node.(children := node.children) == node
    decreases |ts| - pos, 1
  {
    var p := Next(ts, pos);
    if p == |ts| || ts[p] == end then Success(Progress(p, node, scopes))
    else
      var done :- ValueSpec(ts, p, propertyName, node, scopes);
      ItemsSpec(ts, done.pos, end, propertyName, done.node, done.scopes)
  }

  /**
   * ReadJson: the reader on the token at pos, which must start an object; its
   * properties are read into the document, or into a root element of the given name
   * (DeserializeRootElementName) when that is not empty.
   */
  function ReadJsonSpec(ts: seq<Token>, pos: nat, rootName: string): (r: Result<XmlNode, ConvertError>)
    requires pos <= |ts|
    ensures r.Success? ==> r.value.Document?
    ensures Current(ts, pos) != StartObject ==> r == Failure(NotAnObject)
  {
    var rootNode := if rootName != "" then Element(rootName, "", [], []) else Document([]);
    if Current(ts, pos) != StartObject then Failure(NotAnObject)
    else
      var done :- NodeSpec(ts, Next(ts, pos), rootNode, InitialScopes());
      Success(if rootName != "" then Document([done.node]) else done.node)
  }
}
