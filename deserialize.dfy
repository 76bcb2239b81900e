/**
 * The reverse pass as the converter runs it: methods that pull tokens from a JsonReader
 * and declare namespaces in an XmlNamespaceManager, each proved to do what its function
 * in DeserializeSpec says. The node being filled is passed in and the filled node
 * returned.
 */
module Deserialization {
  import opened Results
  import opened ConvertErrors
  import opened XmlDom
  import opened ConverterNames
  import opened JsonTokens
  import opened JsonReading
  import opened Namespaces
  import opened DeserializeSpec
  import opened DeserializeSteps

  /** The reader and the manager stand where spec says, and r is its node or its error. */
  predicate Reached(reader: JsonReader, manager: XmlNamespaceManager, r: Result<XmlNode, ConvertError>, spec: Result<Progress, ConvertError>)
    reads reader, manager
  {
    match spec
    case Success(p) => r == Success(p.node) && reader.pos == p.pos && manager.scopes == p.scopes
    case Failure(e) => r == Failure(e)
  }

  /** ReadJson: a new document and manager, the first token checked, then DeserializeNode. */
  method ReadJson(reader: JsonReader, deserializeRootElementName: string) returns (r: Result<XmlNode, ConvertError>)
    requires reader.Valid()
    modifies reader
    ensures r == ReadJsonSpec(reader.tokens, old(reader.pos), deserializeRootElementName)
  {
    var manager := new XmlNamespaceManager();
    var rootNode := if deserializeRootElementName != "" then Element(deserializeRootElementName, "", [], []) else Document([]);
    if reader.TokenType() != StartObject {
      return Failure(NotAnObject);
    }
    var _ := reader.Read();
    var done := DeserializeNode(reader, manager, rootNode);
    if done.Failure? {
      return Failure(done.error);
    }
    return Success(if deserializeRootElementName != "" then Document([done.value]) else done.value);
  }

  /** DeserializeValue: one property value, appended to currentNode as the node its name calls for. */
  method DeserializeValue(reader: JsonReader, manager: XmlNamespaceManager, propertyName: string, currentNode: XmlNode)
    returns (r: Result<XmlNode, ConvertError>)
    requires reader.Valid() && currentNode.HasChildren()
    modifies reader, manager
    ensures reader.Valid()
    ensures Reached(reader, manager, r, ValueSpec(reader.tokens, old(reader.pos), propertyName, currentNode, old(manager.scopes)))
    decreases |reader.tokens| - reader.pos, 6
  {
    if propertyName in {TextName, CDataName, WhitespaceName, SignificantWhitespaceName} {
      var text := ValueText(reader.TokenType());
      if text.Failure? {
        return Failure(text.error);
      }
      return Success(AppendChild(currentNode, TextNode(propertyName, text.value)));
    } else if |propertyName| > 0 && propertyName[0] == '?' {
      if propertyName == DeclarationName {
        var d := ReadDeclaration(reader);
        if d.Failure? {
          return Failure(d.error);
        }
        var declaration := Declaration(OrEmpty(d.value.version), OrEmpty(d.value.encoding), OrEmpty(d.value.standalone));
        return Success(AppendChild(currentNode, declaration));
      } else {
        var text := ValueText(reader.TokenType());
        if text.Failure? {
          return Failure(text.error);
        }
        return Success(AppendChild(currentNode, ProcessingInstruction(propertyName[1..], text.value)));
      }
    } else {
      r := DeserializeElement(reader, manager, propertyName, currentNode);
    }
  }

  /** The "?xml" loop of DeserializeValue. */
  method ReadDeclaration(reader: JsonReader) returns (r: Result<DeclarationFields, ConvertError>)
    requires reader.Valid()
    modifies reader
    ensures reader.Valid()
    ensures r == DeclarationSpec(reader.tokens, old(reader.pos), None, None, None)
    ensures r.Success? ==> reader.pos == r.value.pos
  {
    var version: Option<string> := None;
    var encoding: Option<string> := None;
    var standalone: Option<string> := None;
    while true
      invariant reader.Valid()
      invariant DeclarationSpec(reader.tokens, old(reader.pos), None, None, None)
        == DeclarationSpec(reader.tokens, reader.pos, version, encoding, standalone)
      decreases |reader.tokens| - reader.pos
    {
      var more := reader.Read();
      if !more || reader.TokenType() == EndObject {
        return Success(DeclarationFields(reader.pos, version, encoding, standalone));
      }
      var key := ValueText(reader.TokenType());
      if key.Failure? {
        return Failure(key.error);
      }
      if key.value == "@version" {
        more := reader.Read();
        var v := ValueText(reader.TokenType());
        if v.Failure? {
          return Failure(v.error);
        }
        version := Some(v.value);
      } else if key.value == "@encoding" {
        more := reader.Read();
        var v := ValueText(reader.TokenType());
        if v.Failure? {
          return Failure(v.error);
        }
        encoding := Some(v.value);
      } else if key.value == "@standalone" {
        more := reader.Read();
        var v := ValueText(reader.TokenType());
        if v.Failure? {
          return Failure(v.error);
        }
        standalone := Some(v.value);
      } else {
        return Failure(UnexpectedDeclarationProperty);
      }
    }
  }

  /** The attribute loop of DeserializeValue, which also declares namespaces as it meets them. */
  method ReadAttributes(reader: JsonReader, manager: XmlNamespaceManager) returns (r: Result<AttributeState, ConvertError>)
    requires reader.Valid()
    modifies reader, manager
    ensures reader.Valid()
    ensures r == AttributesSpec(reader.tokens, old(reader.pos), [], old(manager.scopes))
    ensures r.Success? ==> reader.pos == r.value.pos && manager.scopes == r.value.scopes
  {
    var attributeNameValues: seq<(string, string)> := [];
    var finishedAttributes := false;
    var finishedElement := false;
    while !finishedAttributes && !finishedElement
      invariant reader.Valid()
      invariant !finishedAttributes && !finishedElement ==>
        AttributesSpec(reader.tokens, old(reader.pos), [], old(manager.scopes))
        == AttributesSpec(reader.tokens, reader.pos, attributeNameValues, manager.scopes)
      invariant finishedAttributes || finishedElement ==>
        AttributesSpec(reader.tokens, old(reader.pos), [], old(manager.scopes))
        == Success(AttributeState(reader.pos, attributeNameValues, manager.scopes, finishedAttributes, finishedElement))
      decreases |reader.tokens| - reader.pos, if finishedAttributes || finishedElement then 0 else 1
    {
      var more := reader.Read();
      if !more {
        return Success(AttributeState(reader.pos, attributeNameValues, manager.scopes, false, false));
      }
      match reader.TokenType()
      case PropertyName(attributeName) =>
        if |attributeName| == 0 {
          return Failure(EmptyPropertyName);
        }
        if attributeName[0] == '@' {
          var name := attributeName[1..];
          more := reader.Read();
          var attributeValue := ValueText(reader.TokenType());
          if attributeValue.Failure? {
            return Failure(attributeValue.error);
          }
          if HasKey(attributeNameValues, name) {
            return Failure(DuplicateAttribute);
          }
          attributeNameValues := attributeNameValues + [(name, attributeValue.value)];
          var namespacePrefix := IsNamespaceAttribute(name);
          if namespacePrefix.Some? {
            manager.AddNamespace(namespacePrefix.value, attributeValue.value);
          }
        } else {
          finishedAttributes := true;
        }
      case EndObject =>
        finishedElement := true;
      case _ =>
        return Failure(UnexpectedToken);
    }
    r := Success(AttributeState(reader.pos, attributeNameValues, manager.scopes, finishedAttributes, finishedElement));
  }

  /** One more pair collected is one more attribute created, at the end. */
  lemma CreateAttributesStep(before: seq<XmlNode>, pairs: seq<(string, string)>, i: nat, scopes: Scopes)
    requires i < |pairs|
    ensures before + CreateAttributes(pairs[..i + 1], scopes)
      == before + CreateAttributes(pairs[..i], scopes) + [CreateAttribute(pairs[i].0, pairs[i].1, scopes)]
  {
    assert pairs[..i + 1][..i] == pairs[..i];
  }

  /** The foreach over the collected attributes: each created and set on the element, in order. */
  method SetAttributes(element: XmlNode, attributeNameValues: seq<(string, string)>, manager: XmlNamespaceManager)
    returns (e: XmlNode)
    requires element.Element?
    ensures e == element.(attributes := element.attributes + CreateAttributes(attributeNameValues, manager.scopes))
  {
    ghost var scopes := manager.scopes;
    var attributes := element.attributes;
    var i := 0;
    while i < |attributeNameValues|
      invariant 0 <= i <= |attributeNameValues|
      invariant attributes == element.attributes + CreateAttributes(attributeNameValues[..i], scopes)
    {
      var nameValue := attributeNameValues[i];
      var attribute := CreateAttribute(nameValue.0, nameValue.1, manager.scopes);
      CreateAttributesStep(element.attributes, attributeNameValues, i, scopes);
      attributes := attributes + [attribute];
      i := i + 1;
    }
    assert attributeNameValues[..i] == attributeNameValues;
    e := element.(attributes := attributes);
  }

  /** The element branch of DeserializeValue. */
  method DeserializeElement(reader: JsonReader, manager: XmlNamespaceManager, propertyName: string, currentNode: XmlNode)
    returns (r: Result<XmlNode, ConvertError>)
    requires reader.Valid() && currentNode.HasChildren()
    modifies reader, manager
    ensures reader.Valid()
    ensures Reached(reader, manager, r, ElementSpec(reader.tokens, old(reader.pos), propertyName, currentNode, old(manager.scopes)))
    decreases |reader.tokens| - reader.pos, 5
  {
    var elementPrefix := GetPrefix(propertyName);
    if reader.TokenType() == StartArray {
      var nestedArrayElement := CreateElement(propertyName, elementPrefix, manager.scopes);
      var done := DeserializeItems(reader, manager, EndArray, propertyName, nestedArrayElement);
      if done.Failure? {
        return Failure(done.error);
      }
      return Success(AppendChild(currentNode, done.value));
    }
    var attrs := Success(AttributeState(reader.pos, [], manager.scopes, false, false));
    if !IsInline(reader.TokenType()) {
      attrs := ReadAttributes(reader, manager);
      if attrs.Failure? {
        return Failure(attrs.error);
      }
    }
    r := FinishElement(reader, manager, attrs.value, propertyName, currentNode);
  }

  /** The element branch after the attribute loop: create, set the attributes, read the content. */
  method FinishElement(reader: JsonReader, manager: XmlNamespaceManager, attrs: AttributeState, propertyName: string, currentNode: XmlNode)
    returns (r: Result<XmlNode, ConvertError>)
    requires reader.Valid() && currentNode.HasChildren()
    requires reader.pos == attrs.pos && manager.scopes == attrs.scopes
    modifies reader, manager
    ensures reader.Valid()
    ensures Reached(reader, manager, r, ElementBodySpec(reader.tokens, attrs, propertyName, currentNode))
    decreases |reader.tokens| - reader.pos, 4
  {
    var element := CreateElement(propertyName, GetPrefix(propertyName), manager.scopes);
    assert [] + CreateAttributes(attrs.pairs, attrs.scopes) == CreateAttributes(attrs.pairs, attrs.scopes);
    element := SetAttributes(element, attrs.pairs, manager);
    var t := reader.TokenType();
    if IsScalar(t) {
      element := AppendChild(element, Text(XmlText(t)));
    } else if t == Null {
    } else if !attrs.finishedElement {
      manager.PushScope();
      var inner := DeserializeNode(reader, manager, element);
      if inner.Failure? {
        return Failure(inner.error);
      }
      element := inner.value;
      var _ := manager.PopScope();
    }
    return Success(AppendChild(currentNode, element));
  }

  /** DeserializeNode: properties and constructors read into currentNode until its object or array ends. */
  method DeserializeNode(reader: JsonReader, manager: XmlNamespaceManager, currentNode: XmlNode)
    returns (r: Result<XmlNode, ConvertError>)
    requires reader.Valid() && currentNode.HasChildren()
    modifies reader, manager
    ensures reader.Valid()
    ensures Reached(reader, manager, r, NodeSpec(reader.tokens, old(reader.pos), currentNode, old(manager.scopes)))
    decreases |reader.tokens| - reader.pos, 3
  {
    var node := currentNode;
    while true
      invariant reader.Valid() && node.HasChildren() && old(reader.pos) <= reader.pos
      invariant NodeSpec(reader.tokens, old(reader.pos), currentNode, old(manager.scopes))
        == NodeSpec(reader.tokens, reader.pos, node, manager.scopes)
      decreases |reader.tokens| - reader.pos
    {
      ghost var pos := reader.pos;
      ghost var spec := NodeCaseSpec(reader.tokens, reader.pos, node, manager.scopes);
      var pass, returned := DeserializeNodeCase(reader, manager, node);
      if pass.Failure? {
        return pass;
      }
      node := pass.value;
      if returned {
        return pass;
      }
      ghost var reached := Progress(reader.pos, node, manager.scopes);
      assert spec == Success(LoopPass(reached, false));
      NodeContinueUnfolds(reader.tokens, pos, reached);
      if !reader.TokenType().PropertyName? {
        var more := reader.Read();
        if !more {
          return Success(node);
        }
      }
    }
  }

  /** One pass of the switch in DeserializeNode; returned tells whether the pass returned. */
  method DeserializeNodeCase(reader: JsonReader, manager: XmlNamespaceManager, currentNode: XmlNode)
    returns (r: Result<XmlNode, ConvertError>, returned: bool)
    requires reader.Valid() && currentNode.HasChildren()
    modifies reader, manager
    ensures reader.Valid()
    ensures match NodeCaseSpec(reader.tokens, old(reader.pos), currentNode, old(manager.scopes))
      case Success(pass) =>
        r == Success(pass.progress.node) && returned == pass.returned
        && reader.pos == pass.progress.pos && manager.scopes == pass.progress.scopes
      case Failure(e) => r == Failure(e)
    decreases |reader.tokens| - reader.pos, 2
  {
    returned := false;
    match reader.TokenType()
    case PropertyName(propertyName) =>
      if currentNode.Document? && HasDocumentElement(currentNode) {
        return Failure(MultipleRootProperties), false;
      }
      r := DeserializeProperty(reader, manager, propertyName, currentNode);
    case StartConstructor(constructorName) =>
      r := DeserializeItems(reader, manager, EndConstructor, "-" + constructorName, currentNode);
    case EndObject =>
      return Success(currentNode), true;
    case EndArray =>
      return Success(currentNode), true;
    case _ =>
      return Failure(UnexpectedToken), false;
  }

  /** The property case of DeserializeNode, the reader on the property name. */
  method DeserializeProperty(reader: JsonReader, manager: XmlNamespaceManager, propertyName: string, currentNode: XmlNode)
    returns (r: Result<XmlNode, ConvertError>)
    requires reader.Valid() && reader.pos < |reader.tokens| && currentNode.HasChildren()
    modifies reader, manager
    ensures reader.Valid()
    ensures Reached(reader, manager, r, PropertySpec(reader.tokens, old(reader.pos), propertyName, currentNode, old(manager.scopes)))
    decreases |reader.tokens| - reader.pos, 1
  {
    var _ := reader.Read();
    if reader.TokenType() == StartArray {
      r := DeserializeItems(reader, manager, EndArray, propertyName, currentNode);
    } else {
      r := DeserializeValue(reader, manager, propertyName, currentNode);
    }
  }

  /** while (reader.Read() && reader.TokenType != end) DeserializeValue(reader, ..., propertyName, node). */
  method DeserializeItems(reader: JsonReader, manager: XmlNamespaceManager, end: Token, propertyName: string, node: XmlNode)
    returns (r: Result<XmlNode, ConvertError>)
    requires reader.Valid() && node.HasChildren()
    modifies reader, manager
    ensures reader.Valid()
    ensures Reached(reader, manager, r, ItemsSpec(reader.tokens, old(reader.pos), end, propertyName, node, old(manager.scopes)))
    decreases |reader.tokens| - reader.pos, 1
  {
    var current := node;
    while true
      invariant reader.Valid() && current.HasChildren() && old(reader.pos) <= reader.pos
      invariant ItemsSpec(reader.tokens, old(reader.pos), end, propertyName, node, old(manager.scopes))
        == ItemsSpec(reader.tokens, reader.pos, end, propertyName, current, manager.scopes)
      decreases |reader.tokens| - reader.pos
    {
      var more := reader.Read();
      if !more || reader.TokenType() == end {
        return Success(current);
      }
      var done := DeserializeValue(reader, manager, propertyName, current);
      if done.Failure? {
        return Failure(done.error);
      }
      current := done.value;
    }
  }
}
