/**
 * The reverse-pass functions unfolded one step at a time, case by case, so that proofs
 * about a whole read can go through it one token at a time.
 */
module DeserializeSteps {
  import opened Results
  import opened ConvertErrors
  import opened XmlDom
  import opened ConverterNames
  import opened JsonTokens
  import opened JsonReading
  import opened Namespaces
  import opened DeserializeSpec

  /** The loop test of DeserializeNode. */
  lemma NodeContinueUnfolds(ts: seq<Token>, pos: nat, done: Progress)
    requires pos < done.pos <= |ts| && done.node.HasChildren()
    ensures Current(ts, done.pos).PropertyName? ==>
      NodeContinue(ts, pos, done) == NodeSpec(ts, done.pos, done.node, done.scopes)
    ensures !Current(ts, done.pos).PropertyName? && Next(ts, done.pos) < |ts| ==>
      NodeContinue(ts, pos, done) == NodeSpec(ts, Next(ts, done.pos), done.node, done.scopes)
    ensures !Current(ts, done.pos).PropertyName? && Next(ts, done.pos) == |ts| ==>
      NodeContinue(ts, pos, done) == Success(done.(pos := |ts|))
  {
  }

  /** A pass of DeserializeNode that reads a property and goes on. */
  lemma NodePropertyStep(ts: seq<Token>, pos: nat, name: string, node: XmlNode, scopes: Scopes, done: Progress)
    requires pos < |ts| && ts[pos] == PropertyName(name) && node.HasChildren()
    requires !(node.Document? && HasDocumentElement(node))
    requires PropertySpec(ts, pos, name, node, scopes).Success? && PropertySpec(ts, pos, name, node, scopes).value == done
    ensures NodeCaseSpec(ts, pos, node, scopes).Success?
    ensures NodeCaseSpec(ts, pos, node, scopes).value == LoopPass(done, false)
    ensures NodeSpec(ts, pos, node, scopes) == NodeContinue(ts, pos, done)
  {
  }

  /**
   * A pass of DeserializeNode that reads a property ending on a token other than a
   * property name, then reads the next token and goes on.
   */
  lemma NodePropertyThenNext(ts: seq<Token>, pos: nat, name: string, node: XmlNode, scopes: Scopes, done: Progress)
    requires pos < |ts| && ts[pos] == PropertyName(name) && node.HasChildren()
    requires !(node.Document? && HasDocumentElement(node))
    requires PropertySpec(ts, pos, name, node, scopes).Success? && PropertySpec(ts, pos, name, node, scopes).value == done
    requires done.pos + 1 < |ts| && !ts[done.pos].PropertyName?
    ensures NodeSpec(ts, pos, node, scopes) == NodeSpec(ts, done.pos + 1, done.node, done.scopes)
  {
    NodePropertyStep(ts, pos, name, node, scopes, done);
    NodeContinueUnfolds(ts, pos, done);
  }

  /** The end of an object or an array returns from DeserializeNode. */
  lemma NodeEndStep(ts: seq<Token>, pos: nat, node: XmlNode, scopes: Scopes)
    requires pos < |ts| && (ts[pos] == EndObject || ts[pos] == EndArray) && node.HasChildren()
    ensures NodeSpec(ts, pos, node, scopes).Success?
    ensures NodeSpec(ts, pos, node, scopes).value == Progress(pos, node, scopes)
  {
  }

  /** A property whose value is not an array: its value is read under its name. */
  lemma PropertyValueStep(ts: seq<Token>, pos: nat, name: string, node: XmlNode, scopes: Scopes)
    requires pos + 1 < |ts| && ts[pos + 1] != StartArray && node.HasChildren()
    ensures PropertySpec(ts, pos, name, node, scopes) == ValueSpec(ts, pos + 1, name, node, scopes)
  {
  }

  /** A property whose value is an array: each item is read under the property's name. */
  lemma PropertyArrayStep(ts: seq<Token>, pos: nat, name: string, node: XmlNode, scopes: Scopes)
    requires pos + 1 < |ts| && ts[pos + 1] == StartArray && node.HasChildren()
    ensures PropertySpec(ts, pos, name, node, scopes) == ItemsSpec(ts, pos + 1, EndArray, name, node, scopes)
  {
  }

  /** The value after an "@" property is the attribute's value; the loop goes on after it. */
  lemma AttributeStep(ts: seq<Token>, pos: nat, pairs: seq<(string, string)>, scopes: Scopes, key: string, value: string)
    requires pos + 2 < |ts| && ts[pos + 1] == PropertyName("@" + key) && ts[pos + 2] == String(value)
    requires !HasKey(pairs, key)
    ensures AttributesSpec(ts, pos, pairs, scopes) == AttributesSpec(ts, pos + 2, pairs + [(key, value)],
      match IsNamespaceAttribute(key)
      case Some(prefix) => Declare(scopes, prefix, value)
      case None => scopes)
  {
    assert ("@" + key)[1..] == key;
  }

  /** The attribute loop stops at a property name without "@" or at the end of the object. */
  lemma AttributeStop(ts: seq<Token>, pos: nat, pairs: seq<(string, string)>, scopes: Scopes)
    requires pos + 1 < |ts|
    requires ts[pos + 1] == EndObject || (ts[pos + 1].PropertyName? && |ts[pos + 1].name| > 0 && ts[pos + 1].name[0] != '@')
    ensures AttributesSpec(ts, pos, pairs, scopes).Success?
    ensures AttributesSpec(ts, pos, pairs, scopes).value == AttributeState(pos + 1, pairs, scopes, ts[pos + 1].PropertyName?, ts[pos + 1] == EndObject)
  {
  }

  /** A name outside the reserved vocabulary is read as an element. */
  lemma PlainValueIsElement(ts: seq<Token>, pos: nat, name: string, node: XmlNode, scopes: Scopes)
    requires pos <= |ts| && node.HasChildren() && IsPlainName(name)
    ensures ValueSpec(ts, pos, name, node, scopes) == ElementSpec(ts, pos, name, node, scopes)
  {
    assert TextName[0] == '#' && CDataName[0] == '#';
    assert WhitespaceName[0] == '#' && SignificantWhitespaceName[0] == '#';
  }

  /** A scalar, null or a constructor: the element is made without reading attributes. */
  lemma InlineElementStep(ts: seq<Token>, pos: nat, name: string, node: XmlNode, scopes: Scopes)
    requires pos <= |ts| && node.HasChildren() && IsInline(Current(ts, pos))
    ensures ElementSpec(ts, pos, name, node, scopes)
      == ElementBodySpec(ts, AttributeState(pos, [], scopes, false, false), name, node)
  {
  }

  /** Any other value, an object among them: the attributes are read first, then the element is made. */
  lemma ObjectElementStep(ts: seq<Token>, pos: nat, name: string, node: XmlNode, scopes: Scopes, attrs: AttributeState)
    requires pos <= |ts| && node.HasChildren() && Current(ts, pos) != StartArray && !IsInline(Current(ts, pos))
    requires AttributesSpec(ts, pos, [], scopes).Success? && AttributesSpec(ts, pos, [], scopes).value == attrs
    ensures ElementSpec(ts, pos, name, node, scopes) == ElementBodySpec(ts, attrs, name, node)
  {
  }

  /** A scalar value: the element with its attributes and the scalar's text as its only child. */
  lemma BodyScalarStep(ts: seq<Token>, attrs: AttributeState, name: string, node: XmlNode)
    requires attrs.pos < |ts| && IsScalar(ts[attrs.pos]) && node.HasChildren()
    ensures ElementBodySpec(ts, attrs, name, node).Success?
    ensures ElementBodySpec(ts, attrs, name, node).value == Progress(attrs.pos,
      AppendChild(node, AppendChild(CreatedElement(name, attrs.pairs, attrs.scopes), Text(XmlText(ts[attrs.pos])))), attrs.scopes)
  {
  }

  /** null, or an object that ends after its attributes: the element with those attributes and nothing else. */
  lemma BodyEmptyStep(ts: seq<Token>, attrs: AttributeState, name: string, node: XmlNode)
    requires attrs.pos <= |ts| && node.HasChildren()
    requires !IsScalar(Current(ts, attrs.pos)) && (Current(ts, attrs.pos) == Null || attrs.finishedElement)
    ensures ElementBodySpec(ts, attrs, name, node).Success?
    ensures ElementBodySpec(ts, attrs, name, node).value
      == Progress(attrs.pos, AppendChild(node, CreatedElement(name, attrs.pairs, attrs.scopes)), attrs.scopes)
  {
  }

  /** Content to read: the element's children are read inside a scope of its own. */
  lemma BodyContentStep(ts: seq<Token>, attrs: AttributeState, name: string, node: XmlNode)
    requires attrs.pos <= |ts| && node.HasChildren()
    requires !IsScalar(Current(ts, attrs.pos)) && Current(ts, attrs.pos) != Null && !attrs.finishedElement
    ensures var inner := NodeSpec(ts, attrs.pos, CreatedElement(name, attrs.pairs, attrs.scopes), Push(attrs.scopes));
      && (inner.Failure? ==> ElementBodySpec(ts, attrs, name, node).Failure?)
      && (inner.Success? ==>
        && ElementBodySpec(ts, attrs, name, node).Success?
        && ElementBodySpec(ts, attrs, name, node).value
          == Progress(inner.value.pos, AppendChild(node, inner.value.node), Pop(inner.value.scopes)))
  {
  }

  /** A value that is an array: one element, holding an element for each item. */
  lemma ArrayElementStep(ts: seq<Token>, pos: nat, name: string, node: XmlNode, scopes: Scopes)
    requires pos <= |ts| && node.HasChildren() && Current(ts, pos) == StartArray
    ensures var items := ItemsSpec(ts, pos, EndArray, name, CreateElement(name, GetPrefix(name), scopes), scopes);
      ElementSpec(ts, pos, name, node, scopes) ==
        if items.Success? then Success(Progress(items.value.pos, AppendChild(node, items.value.node), items.value.scopes))
        else Failure(items.error)
  {
  }

  /** ReadJson with a root element name: the document holds the root element the object was read into. */
  lemma ReadJsonRootStep(ts: seq<Token>, pos: nat, rootName: string, body: XmlNode)
    requires pos + 1 <= |ts| && ts[pos] == StartObject && rootName != ""
    requires NodeSpec(ts, pos + 1, Element(rootName, "", [], []), InitialScopes()).Success?
    requires NodeSpec(ts, pos + 1, Element(rootName, "", [], []), InitialScopes()).value.node == body
    ensures ReadJsonSpec(ts, pos, rootName).Success?
    ensures ReadJsonSpec(ts, pos, rootName).value == Document([body])
  {
  }

  /** ReadJson without a root element name fails as reading the object into the document fails. */
  lemma ReadJsonDocumentFails(ts: seq<Token>, pos: nat)
    requires pos < |ts| && ts[pos] == StartObject
    requires NodeSpec(ts, pos + 1, Document([]), InitialScopes()).Failure?
    ensures ReadJsonSpec(ts, pos, "").Failure?
    ensures ReadJsonSpec(ts, pos, "").error == NodeSpec(ts, pos + 1, Document([]), InitialScopes()).error
  {
  }

  /** A property of the document once it has its element is refused. */
  lemma NodeSecondRootStep(ts: seq<Token>, pos: nat, name: string, node: XmlNode, scopes: Scopes)
    requires pos < |ts| && ts[pos] == PropertyName(name) && node.Document? && HasDocumentElement(node)
    ensures NodeSpec(ts, pos, node, scopes).Failure?
    ensures NodeSpec(ts, pos, node, scopes).error == MultipleRootProperties
  {
  }

  /** A constructor in an object: its items read as elements named "-" and the constructor's name. */
  lemma NodeConstructorStep(ts: seq<Token>, pos: nat, c: string, node: XmlNode, scopes: Scopes, done: Progress)
    requires pos < |ts| && node.HasChildren() && ts[pos] == StartConstructor(c)
    requires ItemsSpec(ts, pos, EndConstructor, "-" + c, node, scopes).Success?
    requires ItemsSpec(ts, pos, EndConstructor, "-" + c, node, scopes).value == done
    ensures NodeCaseSpec(ts, pos, node, scopes).Success?
    ensures NodeCaseSpec(ts, pos, node, scopes).value == LoopPass(done, false)
  {
  }

  /** The end token closes the items and leaves the node as it is. */
  lemma ItemsEndStep(ts: seq<Token>, pos: nat, end: Token, name: string, node: XmlNode, scopes: Scopes)
    requires pos + 1 < |ts| && node.HasChildren() && ts[pos + 1] == end
    ensures ItemsSpec(ts, pos, end, name, node, scopes).Success?
    ensures ItemsSpec(ts, pos, end, name, node, scopes).value == Progress(pos + 1, node, scopes)
  {
  }

  /** The item loop: the end token stops it, any other token is read as a value and the loop goes on. */
  lemma ItemsStep(ts: seq<Token>, pos: nat, end: Token, name: string, node: XmlNode, scopes: Scopes)
    requires pos + 1 < |ts| && node.HasChildren()
    ensures ts[pos + 1] == end ==>
      ItemsSpec(ts, pos, end, name, node, scopes).Success?
      && ItemsSpec(ts, pos, end, name, node, scopes).value == Progress(pos + 1, node, scopes)
    ensures var value := ValueSpec(ts, pos + 1, name, node, scopes);
      ts[pos + 1] != end ==>
        ItemsSpec(ts, pos, end, name, node, scopes) ==
          if value.Success? then ItemsSpec(ts, value.value.pos, end, name, value.value.node, value.value.scopes)
          else Failure(value.error)
  {
  }
}
