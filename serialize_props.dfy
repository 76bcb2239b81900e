/**
 * What the element cases of SerializeNode do on the shapes they single out, and that the
 * converter's own metadata never reaches the JSON.
 */
module SerializeProperties {
  import opened Results
  import opened XmlDom
  import opened ConverterNames
  import opened JsonTokens
  import opened SerializeSpec

  /** The attributes of the JSON namespace, json:Array among them. */
  predicate AllJsonAttributes(attributes: seq<XmlNode>) {
    forall a | a in attributes :: a.Attribute? && a.namespaceUri == JsonNamespaceUri
  }

  /** Metadata attributes (json:* and the xmlns:json declaration) write no tokens at all. */
  lemma {:induction false} MetadataEmitsNothing(parent: XmlNode, attributes: seq<XmlNode>)
    requires parent.HasChildren() && Within(parent, attributes)
    requires forall a | a in attributes :: a.Attribute? && IsJsonMetadata(a)
    ensures SeqTokens(parent, attributes, true).Success? && SeqTokens(parent, attributes, true).value == []
    decreases |attributes|
  {
    if attributes != [] {
      var a := attributes[0];
      assert a in attributes;
      assert ValueTokens(a, true) == Success([]);
      assert LeafTokens(a, true) == Success([]);
      assert NodeTokens(a, true) == Success([]);
      MetadataEmitsNothing(parent, attributes[1..]);
    }
  }

  lemma NoValueAttributes(attributes: seq<XmlNode>)
    requires AllJsonAttributes(attributes)
    ensures ValueAttributes(attributes) == []
  {
    ValueAttributesFilters(attributes);
    if ValueAttributes(attributes) != [] {
      assert ValueAttributes(attributes)[0] in ValueAttributes(attributes);
    }
  }

  /**
   * An element whose only child is text is written as a plain string, its name as the key,
   * even when it carries json:* attributes: the first element case is tested first and
   * looks only at the value attributes.
   */
  lemma TextElementIsString(name: string, ns: string, attributes: seq<XmlNode>, text: string, writePropertyName: bool)
    requires AllJsonAttributes(attributes)
    ensures NodeTokens(Element(name, ns, attributes, [Text(text)]), writePropertyName)
      == Success((if writePropertyName then [PropertyName(name)] else []) + [String(text)])
  {
    NoValueAttributes(attributes);
  }

  /** An element with neither children nor attributes is written as null. */
  lemma EmptyElementIsNull(name: string, ns: string, writePropertyName: bool)
    ensures NodeTokens(Element(name, ns, [], []), writePropertyName)
      == Success((if writePropertyName then [PropertyName(name)] else []) + [Null])
  {
  }

  /**
   * An element with no children but some json:* attributes is not null: the null case
   * demands no attributes at all, so it falls through to the object case, whose metadata
   * attributes write nothing, and becomes an empty object.
   */
  lemma MarkedEmptyElementIsEmptyObject(name: string, ns: string, attributes: seq<XmlNode>, writePropertyName: bool)
    requires attributes != [] && AllJsonAttributes(attributes)
    ensures NodeTokens(Element(name, ns, attributes, []), writePropertyName)
      == Success((if writePropertyName then [PropertyName(name)] else []) + [StartObject, EndObject])
  {
    var n := Element(name, ns, attributes, []);
    MetadataEmitsNothing(n, attributes);
    assert GroupedTokens(n) == Success([]);
    assert [StartObject] + [] + [] + [EndObject] == [StartObject, EndObject];
    assert ObjectTokens(n) == Success([StartObject, EndObject]);
  }

  /**
   * An element with two or more children named "-..." is a JSON constructor named after the
   * first of them, whose arguments are all the children, written without property names.
   */
  lemma ConstructorElement(n: XmlNode, writePropertyName: bool)
    requires n.Element? && ConstructorChildCount(n.children) > 1
    requires Within(n, n.children) && SeqTokens(n, n.children, false).Success?
    ensures NodeTokens(n, writePropertyName) == Success((if writePropertyName then [PropertyName(n.name)] else [])
      + [StartConstructor(ConstructorName(n.children))] + SeqTokens(n, n.children, false).value + [EndConstructor])
  {
    ConstructorNameIsFirst(n.children);
    var i :| 0 <= i < |n.children| && IsConstructorChild(n.children[i]);
    assert !n.children[i].Text?;
    var prop := if writePropertyName then [PropertyName(n.name)] else [];
    var body := [StartConstructor(ConstructorName(n.children))] + SeqTokens(n, n.children, false).value + [EndConstructor];
    assert prop + body == prop + [StartConstructor(ConstructorName(n.children))] + SeqTokens(n, n.children, false).value + [EndConstructor];
  }
}
