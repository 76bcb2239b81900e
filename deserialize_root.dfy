/**
 * What ReadJson promises about the root of the document: MultipleRootProperties is raised
 * only by the document itself, once it has its element, so with a root element name it is
 * never raised and the document always holds exactly that root element; without one, any
 * property after a first one that made an element is refused.
 */
module DeserializeRoot {
  import opened Results
  import opened ConvertErrors
  import opened XmlDom
  import opened ConverterNames
  import opened JsonTokens
  import opened JsonReading
  import opened Namespaces
  import opened DeserializeSpec
  import opened DeserializeSteps
  import opened DeserializeProperties

  /** The outcome is the MultipleRootProperties exception. */
  predicate RaisesMultipleRoots<T>(r: Result<T, ConvertError>) {
    r.Failure? && r.error == MultipleRootProperties
  }

  /** The attribute loop raises no MultipleRootProperties. */
  lemma {:induction false} AttributesNoRoot(ts: seq<Token>, pos: nat, pairs: seq<(string, string)>, scopes: Scopes)
    requires pos <= |ts|
    ensures !RaisesMultipleRoots(AttributesSpec(ts, pos, pairs, scopes))
    decreases |ts| - pos
  {
    var p := Next(ts, pos);
    if p < |ts| && ts[p].PropertyName? && |ts[p].name| > 0 && ts[p].name[0] == '@' {
      var name := ts[p].name;
      var q := Next(ts, p);
      var value := ValueText(Current(ts, q));
      if value.Success? && !HasKey(pairs, name[1..]) {
        var declared := match IsNamespaceAttribute(name[1..])
          case Some(prefix) => Declare(scopes, prefix, value.value)
          case None => scopes;
        AttributesNoRoot(ts, q, pairs + [(name[1..], value.value)], declared);
      }
    }
  }

  /** The "?xml" loop raises no MultipleRootProperties. */
  lemma {:induction false} DeclarationNoRoot(ts: seq<Token>, pos: nat, version: Option<string>, encoding: Option<string>, standalone: Option<string>)
    requires pos <= |ts|
    ensures !RaisesMultipleRoots(DeclarationSpec(ts, pos, version, encoding, standalone))
    decreases |ts| - pos
  {
    var p := Next(ts, pos);
    if p < |ts| && ts[p] != EndObject && ValueText(ts[p]).Success? {
      var key := ValueText(ts[p]).value;
      var q := Next(ts, p);
      var v := ValueText(Current(ts, q));
      if v.Success? {
        if key == "@version" {
          DeclarationNoRoot(ts, q, Some(v.value), encoding, standalone);
        } else if key == "@encoding" {
          DeclarationNoRoot(ts, q, version, Some(v.value), standalone);
        } else if key == "@standalone" {
          DeclarationNoRoot(ts, q, version, encoding, Some(v.value));
        }
      }
    }
  }

  /** DeserializeValue raises no MultipleRootProperties, whatever node it fills. */
  lemma {:induction false} ValueNoRoot(ts: seq<Token>, pos: nat, name: string, node: XmlNode, scopes: Scopes)
    requires pos <= |ts| && node.HasChildren()
    ensures !RaisesMultipleRoots(ValueSpec(ts, pos, name, node, scopes))
    decreases |ts| - pos, 6
  {
    if |name| > 0 && name[0] == '#' && name in {TextName, CDataName, WhitespaceName, SignificantWhitespaceName} {
    } else if |name| > 0 && name[0] == '?' {
      if name == DeclarationName {
        DeclarationNoRoot(ts, pos, None, None, None);
      }
    } else {
      ElementNoRoot(ts, pos, name, node, scopes);
    }
  }

  /** The element branch raises no MultipleRootProperties: everything under it is read into elements. */
  lemma {:induction false} ElementNoRoot(ts: seq<Token>, pos: nat, name: string, node: XmlNode, scopes: Scopes)
    requires pos <= |ts| && node.HasChildren()
    ensures !RaisesMultipleRoots(ElementSpec(ts, pos, name, node, scopes))
    decreases |ts| - pos, 5
  {
    if Current(ts, pos) == StartArray {
      ItemsNoRoot(ts, pos, EndArray, name, CreateElement(name, GetPrefix(name), scopes), scopes);
    } else if IsInline(Current(ts, pos)) {
      ElementBodyNoRoot(ts, AttributeState(pos, [], scopes, false, false), name, node);
    } else {
      AttributesNoRoot(ts, pos, [], scopes);
      var attrs := AttributesSpec(ts, pos, [], scopes);
      if attrs.Success? {
        ElementBodyNoRoot(ts, attrs.value, name, node);
      }
    }
  }

  /** The element once its attributes are read: its content is read into the new element. */
  lemma {:induction false} ElementBodyNoRoot(ts: seq<Token>, attrs: AttributeState, name: string, node: XmlNode)
    requires attrs.pos <= |ts| && node.HasChildren()
    ensures !RaisesMultipleRoots(ElementBodySpec(ts, attrs, name, node))
    decreases |ts| - attrs.pos, 4
  {
    var t := Current(ts, attrs.pos);
    if !IsScalar(t) && t != Null && !attrs.finishedElement {
      NodeNoRoot(ts, attrs.pos, CreatedElement(name, attrs.pairs, attrs.scopes), Push(attrs.scopes));
    }
  }

  /** DeserializeNode on anything but the document raises no MultipleRootProperties. */
  lemma {:induction false} NodeNoRoot(ts: seq<Token>, pos: nat, node: XmlNode, scopes: Scopes)
    requires pos <= |ts| && node.HasChildren() && !node.Document?
    ensures !RaisesMultipleRoots(NodeSpec(ts, pos, node, scopes))
    decreases |ts| - pos, 3
  {
    NodeCaseNoRoot(ts, pos, node, scopes);
    var pass := NodeCaseSpec(ts, pos, node, scopes);
    if pass.Success? && !pass.value.returned {
      assert pass.value.progress.node.(children := node.children) == node;
      NodeContinueNoRoot(ts, pos, pass.value.progress);
    }
  }

  /** One pass of DeserializeNode's loop, on anything but the document. */
  lemma {:induction false} NodeCaseNoRoot(ts: seq<Token>, pos: nat, node: XmlNode, scopes: Scopes)
    requires pos <= |ts| && node.HasChildren() && !node.Document?
    ensures !RaisesMultipleRoots(NodeCaseSpec(ts, pos, node, scopes))
    decreases |ts| - pos, 2
  {
    match Current(ts, pos)
    case PropertyName(name) =>
      PropertyNoRoot(ts, pos, name, node, scopes);
    case StartConstructor(c) =>
      ItemsNoRoot(ts, pos, EndConstructor, "-" + c, node, scopes);
    case _ =>
  }

  /** A property's value, or the items of an array value. */
  lemma {:induction false} PropertyNoRoot(ts: seq<Token>, pos: nat, name: string, node: XmlNode, scopes: Scopes)
    requires pos < |ts| && node.HasChildren()
    ensures !RaisesMultipleRoots(PropertySpec(ts, pos, name, node, scopes))
    decreases |ts| - pos, 1
  {
    var p := Next(ts, pos);
    if Current(ts, p) == StartArray {
      ItemsNoRoot(ts, p, EndArray, name, node, scopes);
    } else {
      ValueNoRoot(ts, p, name, node, scopes);
    }
  }

  /** The loop test of DeserializeNode, on anything but the document. */
  lemma {:induction false} NodeContinueNoRoot(ts: seq<Token>, pos: nat, done: Progress)
    requires pos < done.pos <= |ts| && done.node.HasChildren() && !done.node.Document?
    ensures !RaisesMultipleRoots(NodeContinue(ts, pos, done))
    decreases |ts| - pos, 0
  {
    if Current(ts, done.pos).PropertyName? {
      NodeNoRoot(ts, done.pos, done.node, done.scopes);
    } else if Next(ts, done.pos) < |ts| {
      NodeNoRoot(ts, Next(ts, done.pos), done.node, done.scopes);
    }
  }

  /** The items of an array or a constructor. */
  lemma {:induction false} ItemsNoRoot(ts: seq<Token>, pos: nat, end: Token, name: string, node: XmlNode, scopes: Scopes)
    requires pos <= |ts| && node.HasChildren()
    ensures !RaisesMultipleRoots(ItemsSpec(ts, pos, end, name, node, scopes))
    decreases |ts| - pos, 1
  {
    var p := Next(ts, pos);
    if p < |ts| && ts[p] != end {
      ValueNoRoot(ts, p, name, node, scopes);
      var done := ValueSpec(ts, p, name, node, scopes);
      if done.Success? {
        ItemsNoRoot(ts, done.value.pos, end, name, done.value.node, done.value.scopes);
      }
    }
  }

  /**
   * ReadJson with a root element name: whatever the object holds, the outcome is either a
   * document whose only child is an element of that name, in no namespace and without
   * attributes, or an exception other than MultipleRootProperties.
   */
  lemma RootNameMakesRootElement(ts: seq<Token>, pos: nat, rootName: string)
    requires pos <= |ts| && rootName != ""
    ensures var r := ReadJsonSpec(ts, pos, rootName);
      && (r.Success? ==>
            && |r.value.children| == 1 && r.value.children[0].Element?
            && r.value.children[0].name == rootName && r.value.children[0].namespaceUri == ""
            && r.value.children[0].attributes == [])
      && !RaisesMultipleRoots(r)
  {
    if Current(ts, pos) == StartObject {
      NodeNoRoot(ts, Next(ts, pos), Element(rootName, "", [], []), InitialScopes());
    }
  }

  /** Under a plain name, every node the items of an array append is an element of that name. */
  lemma {:induction false} ItemsAppendElements(ts: seq<Token>, pos: nat, end: Token, name: string, node: XmlNode, scopes: Scopes)
    requires pos <= |ts| && node.HasChildren() && IsPlainName(name)
    requires ItemsSpec(ts, pos, end, name, node, scopes).Success?
    ensures var r := ItemsSpec(ts, pos, end, name, node, scopes).value.node;
      && |node.children| <= |r.children| && r.children[..|node.children|] == node.children
      && forall i | |node.children| <= i < |r.children| :: r.children[i].Element? && r.children[i].name == name
    decreases |ts| - pos
  {
    var p := Next(ts, pos);
    if p < |ts| && ts[p] != end {
      ValueAppendsOneChild(ts, p, name, node, scopes);
      var done := ValueSpec(ts, p, name, node, scopes).value;
      ItemsAppendElements(ts, done.pos, end, name, done.node, done.scopes);
      var r := ItemsSpec(ts, done.pos, end, name, done.node, done.scopes).value.node;
      assert r.children[..|node.children|] == node.children by {
        assert r.children[..|node.children|] == r.children[..|done.node.children|][..|node.children|];
      }
      assert r.children[|node.children|] == done.node.children[|node.children|];
    }
  }

  /** Under a plain name, every node a property appends is an element of that name. */
  lemma PropertyAppendsElements(ts: seq<Token>, pos: nat, name: string, node: XmlNode, scopes: Scopes)
    requires pos < |ts| && node.HasChildren() && IsPlainName(name)
    requires PropertySpec(ts, pos, name, node, scopes).Success?
    ensures var r := PropertySpec(ts, pos, name, node, scopes).value.node;
      && |node.children| <= |r.children| && r.children[..|node.children|] == node.children
      && forall i | |node.children| <= i < |r.children| :: r.children[i].Element? && r.children[i].name == name
  {
    var p := Next(ts, pos);
    if Current(ts, p) == StartArray {
      ItemsAppendElements(ts, p, EndArray, name, node, scopes);
    } else {
      ValueAppendsOneChild(ts, p, name, node, scopes);
    }
  }

  /**
   * ReadJson without a root element name: once the root object's first property, under
   * a plain name, has made an element (any value does but an empty array), the next
   * property of the root object is refused with MultipleRootProperties.
   */
  lemma SecondRootPropertyFails(ts: seq<Token>, a: string)
    requires IsPlainName(a) && 1 < |ts| && ts[0] == StartObject && ts[1] == PropertyName(a)
    requires PropertySpec(ts, 1, a, Document([]), InitialScopes()).Success?
    requires var first := PropertySpec(ts, 1, a, Document([]), InitialScopes()).value;
      && first.node.HasChildren() && |first.node.children| > 0
      && (Current(ts, first.pos).PropertyName? || Current(ts, first.pos + 1).PropertyName?)
    ensures RaisesMultipleRoots(ReadJsonSpec(ts, 0, ""))
  {
    var doc := Document([]);
    var scopes := InitialScopes();
    var first := PropertySpec(ts, 1, a, doc, scopes).value;
    PropertyAppendsElements(ts, 1, a, doc, scopes);
    assert first.node.Document? && HasDocumentElement(first.node) by {
      assert first.node.children[0].Element?;
    }
    NodePropertyStep(ts, 1, a, doc, scopes, first);
    NodeContinueUnfolds(ts, 1, first);
    if Current(ts, first.pos).PropertyName? {
      NodeSecondRootStep(ts, first.pos, Current(ts, first.pos).name, first.node, first.scopes);
    } else {
      NodeSecondRootStep(ts, first.pos + 1, ts[first.pos + 1].name, first.node, first.scopes);
    }
    ReadJsonDocumentFails(ts, 0);
  }

  /**
   * An illustration of the case SecondRootPropertyFails leaves out: an empty array makes
   * no element, so a property after it is read as the document element: {"a": [], "b": null}
   * becomes the document holding an empty element b.
   */
  lemma EmptyArrayLeavesRootOpen(ts: seq<Token>, a: string, b: string)
    requires IsPlainName(a) && IsPlainName(b) && |ts| == 7
    requires ts[0] == StartObject && ts[1] == PropertyName(a) && ts[2] == StartArray && ts[3] == EndArray
    requires ts[4] == PropertyName(b) && ts[5] == Null && ts[6] == EndObject
    ensures ReadJsonSpec(ts, 0, "").Success?
    ensures ReadJsonSpec(ts, 0, "").value == Document([Element(b, ElementNamespace(b, InitialScopes()), [], [])])
  {
    var doc := Document([]);
    var scopes := InitialScopes();
    PropertyArrayStep(ts, 1, a, doc, scopes);
    ItemsEndStep(ts, 2, EndArray, a, doc, scopes);
    NodePropertyThenNext(ts, 1, a, doc, scopes, Progress(3, doc, scopes));
    var second := Progress(5, AppendChild(doc, Element(b, ElementNamespace(b, scopes), [], [])), scopes);
    PropertyValueStep(ts, 4, b, doc, scopes);
    NullIsEmptyElement(ts, 5, b, doc, scopes);
    assert !HasDocumentElement(doc);
    NodePropertyThenNext(ts, 4, b, doc, scopes, second);
    NodeEndStep(ts, 6, second.node, scopes);
  }
}
