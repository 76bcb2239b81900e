/**
 * What the reverse pass promises: the root must be an object holding a single property
 * unless a root element name is given, every value read appends exactly one node, leading
 * "@" properties become the element's attributes with their namespace declarations
 * registered before the element is created (and left in the enclosing scope), scalars
 * and null become text-only and empty elements, and the nodes the forward pass writes
 * as a name and a string read back as themselves.
 */
module DeserializeProperties {
  import opened Results
  import opened ConvertErrors
  import opened XmlDom
  import opened ConverterNames
  import opened JsonTokens
  import opened JsonReading
  import opened Namespaces
  import opened SerializeSpec
  import opened DeserializeSpec
  import opened SerializeProperties
  import opened DeserializeSteps

  /** The tokens from pos on are leading attribute properties: "@" + name, then the value as a string. */
  predicate AttributesAt(ts: seq<Token>, pos: nat, pairs: seq<(string, string)>)
    decreases |pairs|
  {
    pos + 2 * |pairs| <= |ts|
    && (pairs == [] || (ts[pos] == PropertyName("@" + pairs[0].0) && ts[pos + 1] == String(pairs[0].1)
      && AttributesAt(ts, pos + 2, pairs[1..])))
  }

  /** A namespace declaration of prefix p as uri, as the only attribute. */
  lemma DeclarationAt(ts: seq<Token>, pos: nat, p: string, uri: string)
    requires pos + 1 < |ts| && ts[pos] == PropertyName("@xmlns:" + p) && ts[pos + 1] == String(uri)
    ensures AttributesAt(ts, pos, [("xmlns:" + p, uri)])
  {
    assert "@" + ("xmlns:" + p) == "@xmlns:" + p;
    assert [("xmlns:" + p, uri)][1..] == [];
  }

  /** AddNamespace for one attribute when it is a namespace declaration; the scopes unchanged otherwise. */
  function DeclareOne(scopes: Scopes, pair: (string, string)): (r: Scopes)
    ensures |r| == |scopes| && r[..|r| - 1] == scopes[..|scopes| - 1]
  {
    match IsNamespaceAttribute(pair.0)
    case Some(prefix) => Declare(scopes, prefix, pair.1)
    case None => scopes
  }

  /** The scopes after the declarations among pairs are added, in order, to the innermost scope. */
  function DeclareAll(scopes: Scopes, pairs: seq<(string, string)>): (r: Scopes)
    ensures |r| == |scopes|
    ensures r[..|r| - 1] == scopes[..|scopes| - 1]
    decreases |pairs|
  {
    if pairs == [] then scopes
    else DeclareAll(DeclareOne(scopes, pairs[0]), pairs[1..])
  }

  /** pairs[i] is a namespace declaration of prefix p. */
  predicate Declares(pairs: seq<(string, string)>, i: int, p: string) {
    0 <= i < |pairs| && IsNamespaceAttribute(pairs[i].0) == Some(p)
  }

  /** pairs[i] is the last declaration of prefix p among pairs. */
  predicate LastDeclares(pairs: seq<(string, string)>, i: int, p: string) {
    Declares(pairs, i, p) && forall j | i < j < |pairs| :: !Declares(pairs, j, p)
  }

  /** What one attribute does to the binding of p in the innermost scope. */
  lemma DeclareOneBinding(scopes: Scopes, pair: (string, string), p: string)
    ensures var r := DeclareOne(scopes, pair);
      p in r[|r| - 1] <==> p in scopes[|scopes| - 1] || IsNamespaceAttribute(pair.0) == Some(p)
    ensures var r := DeclareOne(scopes, pair);
      IsNamespaceAttribute(pair.0) == Some(p) ==> r[|r| - 1][p] == pair.1
    ensures var r := DeclareOne(scopes, pair);
      IsNamespaceAttribute(pair.0) != Some(p) && p in scopes[|scopes| - 1] ==> r[|r| - 1][p] == scopes[|scopes| - 1][p]
  {
  }

  /** The declarations of the tail are those of pairs, one index lower. */
  lemma TailDeclares(pairs: seq<(string, string)>, p: string)
    requires pairs != []
    ensures forall i | 0 <= i < |pairs| - 1 :: Declares(pairs, i + 1, p) == Declares(pairs[1..], i, p)
  {
    forall i | 0 <= i < |pairs| - 1
      ensures Declares(pairs, i + 1, p) == Declares(pairs[1..], i, p)
    {
      assert pairs[1..][i] == pairs[i + 1];
    }
  }

  /** DeclareAll binds p in the innermost scope exactly when it was bound there or some pair declares it. */
  lemma {:induction false} DeclareAllBinds(scopes: Scopes, pairs: seq<(string, string)>, p: string)
    ensures var r := DeclareAll(scopes, pairs);
      p in r[|r| - 1] <==> p in scopes[|scopes| - 1] || exists i :: Declares(pairs, i, p)
    decreases |pairs|
  {
    if pairs != [] {
      var declared := DeclareOne(scopes, pairs[0]);
      assert DeclareAll(scopes, pairs) == DeclareAll(declared, pairs[1..]);
      DeclareAllBinds(declared, pairs[1..], p);
      DeclareOneBinding(scopes, pairs[0], p);
      TailDeclares(pairs, p);
      assert Declares(pairs, 0, p) <==> IsNamespaceAttribute(pairs[0].0) == Some(p);
      assert (exists i :: Declares(pairs, i, p)) <==> Declares(pairs, 0, p) || exists i :: Declares(pairs[1..], i, p) by {
        if exists i :: Declares(pairs, i, p) {
          var i :| Declares(pairs, i, p);
          if i > 0 {
            assert Declares(pairs[1..], i - 1, p);
          }
        }
        if exists i :: Declares(pairs[1..], i, p) {
          var i :| Declares(pairs[1..], i, p);
          assert Declares(pairs, i + 1, p);
        }
      }
    }
  }

  /** A prefix no pair declares keeps the binding it had in the innermost scope. */
  lemma {:induction false} DeclareAllKeeps(scopes: Scopes, pairs: seq<(string, string)>, p: string)
    requires forall i :: !Declares(pairs, i, p)
    requires p in scopes[|scopes| - 1]
    ensures var r := DeclareAll(scopes, pairs);
      p in r[|r| - 1] && r[|r| - 1][p] == scopes[|scopes| - 1][p]
    decreases |pairs|
  {
    if pairs != [] {
      var declared := DeclareOne(scopes, pairs[0]);
      assert !Declares(pairs, 0, p);
      DeclareOneBinding(scopes, pairs[0], p);
      TailDeclares(pairs, p);
      DeclareAllKeeps(declared, pairs[1..], p);
    }
  }

  /**
   * A declared prefix ends up bound, in the innermost scope, to the URI of its last
   * declaration: AddNamespace overwrites an earlier binding of the same scope.
   */
  lemma {:induction false} DeclareAllLastWins(scopes: Scopes, pairs: seq<(string, string)>, i: int, p: string)
    requires LastDeclares(pairs, i, p)
    ensures var r := DeclareAll(scopes, pairs);
      p in r[|r| - 1] && r[|r| - 1][p] == pairs[i].1
    decreases |pairs|
  {
    var declared := DeclareOne(scopes, pairs[0]);
    DeclareOneBinding(scopes, pairs[0], p);
    TailDeclares(pairs, p);
    if i == 0 {
      forall j | 0 <= j < |pairs| - 1 ensures !Declares(pairs[1..], j, p) {
        assert !Declares(pairs, j + 1, p);
      }
      DeclareAllKeeps(declared, pairs[1..], p);
    } else {
      assert LastDeclares(pairs[1..], i - 1, p);
      DeclareAllLastWins(declared, pairs[1..], i - 1, p);
    }
  }

  /** No two attributes share a name. */
  predicate DistinctKeys(pairs: seq<(string, string)>) {
    forall i, j | 0 <= i < j < |pairs| :: pairs[i].0 != pairs[j].0
  }

  /** A token that ends the attribute loop: a property name without "@", or the end of the object. */
  predicate EndsAttributes(t: Token) {
    t == EndObject || (t.PropertyName? && |t.name| > 0 && t.name[0] != '@')
  }

  /**
   * The attribute loop collects exactly the leading "@" properties, in order, declares
   * every namespace among them, and stops on the token after them, telling whether that
   * token is a property name or the end of the object.
   */
  lemma {:induction false} AttributesCollected(ts: seq<Token>, pos: nat, stop: nat, acc: seq<(string, string)>,
      pairs: seq<(string, string)>, scopes: Scopes)
    requires stop == pos + 1 + 2 * |pairs| && stop < |ts|
    requires AttributesAt(ts, pos + 1, pairs)
    requires EndsAttributes(ts[stop])
    requires DistinctKeys(acc + pairs)
    decreases |pairs|
    ensures AttributesSpec(ts, pos, acc, scopes).Success?
    ensures AttributesSpec(ts, pos, acc, scopes).value
      == AttributeState(stop, acc + pairs, DeclareAll(scopes, pairs), ts[stop].PropertyName?, ts[stop] == EndObject)
  {
    if pairs == [] {
      AttributeStop(ts, pos, acc, scopes);
      assert acc + pairs == acc;
    } else {
      var key := pairs[0].0;
      var declared := match IsNamespaceAttribute(key)
        case Some(prefix) => Declare(scopes, prefix, pairs[0].1)
        case None => scopes;
      assert AttributesSpec(ts, pos, acc, scopes) == AttributesSpec(ts, pos + 2, acc + [pairs[0]], declared) by {
        assert !HasKey(acc, key) by {
          forall i | 0 <= i < |acc| ensures acc[i].0 != key {
            assert (acc + pairs)[i] == acc[i] && (acc + pairs)[|acc|] == pairs[0];
          }
        }
        AttributeStep(ts, pos, acc, scopes, key, pairs[0].1);
      }
      assert acc + pairs == (acc + [pairs[0]]) + pairs[1..];
      assert DeclareAll(scopes, pairs) == DeclareAll(declared, pairs[1..]);
      AttributesCollected(ts, pos + 2, stop, acc + [pairs[0]], pairs[1..], declared);
    }
  }

  /**
   * An object holding only attributes becomes one element with exactly those attributes and
   * no children; the element and its attributes are created in the scopes that already hold
   * the object's own namespace declarations, and those declarations stay in the enclosing
   * scope afterwards. The object starts at pos and ends at stop, after its attribute pairs.
   */
  lemma AttributeObjectIsElement(ts: seq<Token>, pos: nat, stop: nat, name: string, node: XmlNode, scopes: Scopes,
      pairs: seq<(string, string)>)
    requires IsPlainName(name) && node.HasChildren()
    requires stop == pos + 1 + 2 * |pairs| && stop < |ts| && ts[pos] == StartObject
    requires AttributesAt(ts, pos + 1, pairs)
    requires ts[stop] == EndObject
    requires DistinctKeys(pairs)
    ensures ValueSpec(ts, pos, name, node, scopes).Success?
    ensures ValueSpec(ts, pos, name, node, scopes).value == Progress(stop,
      AppendChild(node, CreatedElement(name, pairs, DeclareAll(scopes, pairs))), DeclareAll(scopes, pairs))
  {
    PlainValueIsElement(ts, pos, name, node, scopes);
    AttributeObjectElement(ts, pos, stop, name, node, scopes, pairs);
  }

  /** AttributeObjectIsElement, for the element branch of DeserializeValue; the object ends at stop. */
  lemma AttributeObjectElement(ts: seq<Token>, pos: nat, stop: nat, name: string, node: XmlNode, scopes: Scopes, pairs: seq<(string, string)>)
    requires node.HasChildren()
    requires stop == pos + 1 + 2 * |pairs| && stop < |ts| && ts[pos] == StartObject
    requires AttributesAt(ts, pos + 1, pairs)
    requires ts[stop] == EndObject
    requires DistinctKeys(pairs)
    ensures ElementSpec(ts, pos, name, node, scopes).Success?
    ensures ElementSpec(ts, pos, name, node, scopes).value == Progress(stop,
      AppendChild(node, CreatedElement(name, pairs, DeclareAll(scopes, pairs))), DeclareAll(scopes, pairs))
  {
    var attrs := AttributeState(stop, pairs, DeclareAll(scopes, pairs), false, true);
    BodyEmptyStep(ts, attrs, name, node);
    AttributeObjectHead(ts, pos, stop, name, node, scopes, pairs);
  }

  /** The attributes of an object holding only attributes are read before its element is made. */
  lemma AttributeObjectHead(ts: seq<Token>, pos: nat, stop: nat, name: string, node: XmlNode, scopes: Scopes, pairs: seq<(string, string)>)
    requires node.HasChildren()
    requires stop == pos + 1 + 2 * |pairs| && stop < |ts| && ts[pos] == StartObject
    requires AttributesAt(ts, pos + 1, pairs)
    requires ts[stop] == EndObject
    requires DistinctKeys(pairs)
    ensures ElementSpec(ts, pos, name, node, scopes)
      == ElementBodySpec(ts, AttributeState(stop, pairs, DeclareAll(scopes, pairs), false, true), name, node)
  {
    var attrs := AttributeState(stop, pairs, DeclareAll(scopes, pairs), false, true);
    assert AttributesSpec(ts, pos, [], scopes).Success? && AttributesSpec(ts, pos, [], scopes).value == attrs by {
      assert [] + pairs == pairs;
      AttributesCollected(ts, pos, stop, [], pairs, scopes);
    }
    ObjectElementStep(ts, pos, name, node, scopes, attrs);
  }

  /** The declaration of prefix p as uri, as the only attribute. */
  lemma PrefixDeclaration(p: string, uri: string, scopes: Scopes)
    requires p != ""
    ensures DeclareAll(scopes, [("xmlns:" + p, uri)]) == Declare(scopes, p, uri)
    ensures Lookup(DeclareAll(scopes, [("xmlns:" + p, uri)]), p) == Some(uri)
  {
    IsNamespaceAttributeOfDeclaration(p);
    DeclareThenLookup(scopes, p, uri, p);
  }

  /**
   * An element's namespace declarations are registered before the element is created, so
   * a prefixed element that declares its own prefix lands in that namespace; and as the
   * declaration is added before the element's scope is pushed, it outlives the element.
   */
  lemma OwnDeclarationQualifiesElement(ts: seq<Token>, pos: nat, p: string, l: string, uri: string, node: XmlNode, scopes: Scopes)
    requires IsPlainName(p) && ':' !in p && ':' !in l && l != "" && node.HasChildren()
    requires pos + 3 < |ts| && ts[pos] == StartObject
    requires ts[pos + 1] == PropertyName("@xmlns:" + p) && ts[pos + 2] == String(uri) && ts[pos + 3] == EndObject
    ensures ValueSpec(ts, pos, QualifiedName(p, l), node, scopes).Success?
    ensures var r := ValueSpec(ts, pos, QualifiedName(p, l), node, scopes).value;
      && |r.node.children| == |node.children| + 1
      && r.node.children[..|node.children|] == node.children
      && r.node.children[|node.children|].Element?
      && r.node.children[|node.children|].namespaceUri == uri
      && Lookup(r.scopes, p) == Some(uri)
  {
    var name := QualifiedName(p, l);
    var pairs := [("xmlns:" + p, uri)];
    PrefixDeclaration(p, uri, scopes);
    DeclarationAt(ts, pos + 1, p, uri);
    assert IsPlainName(name);
    AttributeObjectIsElement(ts, pos, pos + 3, name, node, scopes, pairs);
    GetPrefixOfQualifiedName(p, l);
  }

  /**
   * A declaration leaks to the element's later siblings: in the object
   * {"a": {"@xmlns:p": uri}, "p:l": null}, the element p:l is put in namespace uri by the
   * declaration its sibling a made, since the declaration went into the enclosing scope.
   */
  lemma DeclarationLeaksToSibling(ts: seq<Token>, a: string, p: string, l: string, uri: string, node: XmlNode, scopes: Scopes)
    requires IsPlainName(a) && IsPlainName(p) && ':' !in p && ':' !in l && l != ""
    requires node.Element?
    requires |ts| == 8 && ts[0] == PropertyName(a) && ts[1] == StartObject
    requires ts[2] == PropertyName("@xmlns:" + p) && ts[3] == String(uri) && ts[4] == EndObject
    requires ts[5] == PropertyName(QualifiedName(p, l)) && ts[6] == Null && ts[7] == EndObject
    ensures NodeSpec(ts, 0, node, scopes).Success?
    ensures var r := NodeSpec(ts, 0, node, scopes).value.node;
      |r.children| == |node.children| + 2 && r.children[|node.children| + 1] == Element(QualifiedName(p, l), uri, [], [])
  {
    var pairs := [("xmlns:" + p, uri)];
    var declared := DeclareAll(scopes, pairs);
    var first := AppendChild(node, CreatedElement(a, pairs, declared));
    LeakFirstPass(ts, a, p, l, uri, node, scopes);
    LeakSecondPass(ts, p, l, uri, first, declared);
  }

  /** The first pass of DeclarationLeaksToSibling: a, with the declaration as its only attribute. */
  lemma LeakFirstPass(ts: seq<Token>, a: string, p: string, l: string, uri: string, node: XmlNode, scopes: Scopes)
    requires IsPlainName(a) && p != "" && node.Element?
    requires |ts| == 8 && ts[0] == PropertyName(a) && ts[1] == StartObject
    requires ts[2] == PropertyName("@xmlns:" + p) && ts[3] == String(uri) && ts[4] == EndObject
    ensures var declared := DeclareAll(scopes, [("xmlns:" + p, uri)]);
      && Lookup(declared, p) == Some(uri)
      && NodeSpec(ts, 0, node, scopes)
        == NodeSpec(ts, 5, AppendChild(node, CreatedElement(a, [("xmlns:" + p, uri)], declared)), declared)
  {
    var pairs := [("xmlns:" + p, uri)];
    PrefixDeclaration(p, uri, scopes);
    DeclarationAt(ts, 2, p, uri);
    PropertyValueStep(ts, 0, a, node, scopes);
    AttributeObjectIsElement(ts, 1, 4, a, node, scopes, pairs);
    var declared := DeclareAll(scopes, pairs);
    NodePropertyThenNext(ts, 0, a, node, scopes, Progress(4, AppendChild(node, CreatedElement(a, pairs, declared)), declared));
  }

  /** The second pass of DeclarationLeaksToSibling: p:l, in the scopes the first pass left. */
  lemma LeakSecondPass(ts: seq<Token>, p: string, l: string, uri: string, node: XmlNode, scopes: Scopes)
    requires IsPlainName(p) && ':' !in p && ':' !in l && l != "" && node.Element?
    requires Lookup(scopes, p) == Some(uri)
    requires |ts| == 8 && ts[5] == PropertyName(QualifiedName(p, l)) && ts[6] == Null && ts[7] == EndObject
    ensures NodeSpec(ts, 5, node, scopes).Success?
    ensures NodeSpec(ts, 5, node, scopes).value.node == AppendChild(node, Element(QualifiedName(p, l), uri, [], []))
  {
    var name := QualifiedName(p, l);
    GetPrefixOfQualifiedName(p, l);
    assert IsPlainName(name);
    PropertyValueStep(ts, 5, name, node, scopes);
    NullIsEmptyElement(ts, 6, name, node, scopes);
    var second := Progress(6, AppendChild(node, Element(name, uri, [], [])), scopes);
    NodePropertyThenNext(ts, 5, name, node, scopes, second);
    NodeEndStep(ts, 7, second.node, scopes);
  }

  /**
   * DeserializeNode's loop test reads past the EndConstructor that ends a constructor
   * value, inside the DeserializeNode call reading the element the constructor fills, so a
   * later sibling lands in that element: the object {"a": new d(s), "b": x} gives one
   * element a holding the element "-" + d and the element b.
   */
  lemma ConstructorAbsorbsSibling(ts: seq<Token>, a: string, d: string, s: string, b: string, x: string, node: XmlNode, scopes: Scopes)
    requires IsPlainName(a) && IsPlainName(b) && node.Element?
    requires |ts| == 7 && ts[0] == PropertyName(a) && ts[1] == StartConstructor(d) && ts[2] == String(s)
    requires ts[3] == EndConstructor && ts[4] == PropertyName(b) && ts[5] == String(x) && ts[6] == EndObject
    ensures NodeSpec(ts, 0, node, scopes).Success?
    ensures var r := NodeSpec(ts, 0, node, scopes).value.node;
      |r.children| == |node.children| + 1
      && r.children[|node.children|].Element? && r.children[|node.children|].name == a
      && r.children[|node.children|].children == [
        Element("-" + d, ElementNamespace("-" + d, Push(scopes)), [], [Text(s)]),
        Element(b, ElementNamespace(b, Push(scopes)), [], [Text(x)])]
  {
    var filled := ConstructorValueRead(ts, a, d, s, b, x, node, scopes);
    var done := Progress(6, AppendChild(node, filled), scopes);
    assert NodeSpec(ts, 0, node, scopes) == Success(done.(pos := 7)) by {
      assert PropertySpec(ts, 0, a, node, scopes) == ValueSpec(ts, 1, a, node, scopes) by {
        PropertyValueStep(ts, 0, a, node, scopes);
      }
      NodePropertyStep(ts, 0, a, node, scopes, done);
      NodeContinueUnfolds(ts, 0, done);
    }
  }

  /** The value of a in ConstructorAbsorbsSibling: the element a, read up to the enclosing object's end. */
  lemma ConstructorValueRead(ts: seq<Token>, a: string, d: string, s: string, b: string, x: string, node: XmlNode, scopes: Scopes)
    returns (filled: XmlNode)
    requires IsPlainName(a) && IsPlainName(b) && node.Element?
    requires |ts| == 7 && ts[1] == StartConstructor(d) && ts[2] == String(s)
    requires ts[3] == EndConstructor && ts[4] == PropertyName(b) && ts[5] == String(x) && ts[6] == EndObject
    ensures filled.Element? && filled.name == a && filled.children == [
      Element("-" + d, ElementNamespace("-" + d, Push(scopes)), [], [Text(s)]),
      Element(b, ElementNamespace(b, Push(scopes)), [], [Text(x)])]
    ensures ValueSpec(ts, 1, a, node, scopes).Success?
    ensures ValueSpec(ts, 1, a, node, scopes).value == Progress(6, AppendChild(node, filled), scopes)
  {
    var e := CreatedElement(a, [], scopes);
    var inner := Push(scopes);
    filled := ConstructorContentRead(ts, d, s, b, x, e, inner);
    var attrs := AttributeState(1, [], scopes, false, false);
    assert ValueSpec(ts, 1, a, node, scopes) == ElementBodySpec(ts, attrs, a, node) by {
      PlainValueIsElement(ts, 1, a, node, scopes);
      InlineElementStep(ts, 1, a, node, scopes);
    }
    assert Pop(inner) == scopes;
    BodyContentStep(ts, attrs, a, node);
  }

  /** The inner DeserializeNode of ConstructorAbsorbsSibling: the constructor's item, then b. */
  lemma ConstructorContentRead(ts: seq<Token>, d: string, s: string, b: string, x: string, e: XmlNode, scopes: Scopes)
    returns (filled: XmlNode)
    requires IsPlainName(b) && e.Element? && e.children == []
    requires |ts| == 7 && ts[1] == StartConstructor(d) && ts[2] == String(s)
    requires ts[3] == EndConstructor && ts[4] == PropertyName(b) && ts[5] == String(x) && ts[6] == EndObject
    ensures filled == e.(children := [
      Element("-" + d, ElementNamespace("-" + d, scopes), [], [Text(s)]),
      Element(b, ElementNamespace(b, scopes), [], [Text(x)])])
    ensures NodeSpec(ts, 1, e, scopes) == Success(Progress(6, filled, scopes))
  {
    var first := Element("-" + d, ElementNamespace("-" + d, scopes), [], [Text(s)]);
    var second := Element(b, ElementNamespace(b, scopes), [], [Text(x)]);
    var item := ConstructorItemRead(ts, d, s, e, scopes);
    filled := SiblingRead(ts, b, x, item, scopes);
    assert item == e.(children := [first]) by {
      assert e.children + [first] == [first];
    }
    assert filled == e.(children := [first, second]) by {
      assert [first] + [second] == [first, second];
    }
  }

  /** The first pass of the inner DeserializeNode of ConstructorAbsorbsSibling: the constructor's item. */
  lemma ConstructorItemRead(ts: seq<Token>, d: string, s: string, e: XmlNode, scopes: Scopes) returns (item: XmlNode)
    requires e.Element?
    requires |ts| == 7 && ts[1] == StartConstructor(d) && ts[2] == String(s)
    requires ts[3] == EndConstructor && ts[4].PropertyName?
    ensures item == AppendChild(e, Element("-" + d, ElementNamespace("-" + d, scopes), [], [Text(s)]))
    ensures NodeSpec(ts, 1, e, scopes) == NodeSpec(ts, 4, item, scopes)
  {
    var c := "-" + d;
    assert IsPlainName(c);
    LeafItemStep(ts, 1, EndConstructor, c, e, scopes);
    item := AppendChild(e, Element(c, ElementNamespace(c, scopes), [], [Text(s)]));
    ItemsEndStep(ts, 2, EndConstructor, c, item, scopes);
    var items := Progress(3, item, scopes);
    NodeConstructorStep(ts, 1, d, e, scopes, items);
    NodeContinueUnfolds(ts, 1, items);
  }

  /** The rest of the inner DeserializeNode of ConstructorAbsorbsSibling: b, then the enclosing object's end. */
  lemma SiblingRead(ts: seq<Token>, b: string, x: string, item: XmlNode, scopes: Scopes) returns (filled: XmlNode)
    requires IsPlainName(b) && item.Element?
    requires |ts| == 7 && ts[4] == PropertyName(b) && ts[5] == String(x) && ts[6] == EndObject
    ensures filled == AppendChild(item, Element(b, ElementNamespace(b, scopes), [], [Text(x)]))
    ensures NodeSpec(ts, 4, item, scopes) == Success(Progress(6, filled, scopes))
  {
    PropertyValueStep(ts, 4, b, item, scopes);
    ScalarIsTextElement(ts, 5, b, item, scopes);
    filled := AppendChild(item, Element(b, ElementNamespace(b, scopes), [], [Text(x)]));
    NodePropertyThenNext(ts, 4, b, item, scopes, Progress(5, filled, scopes));
    NodeEndStep(ts, 6, filled, scopes);
  }

  /** The value DeserializeValue reads under a plain name appends one element of that name. */
  lemma ElementAppendsOneChild(ts: seq<Token>, pos: nat, name: string, node: XmlNode, scopes: Scopes)
    requires pos <= |ts| && node.HasChildren()
    requires ElementSpec(ts, pos, name, node, scopes).Success?
    ensures var r := ElementSpec(ts, pos, name, node, scopes).value.node;
      && |r.children| == |node.children| + 1 && r.children[..|node.children|] == node.children
      && r.children[|node.children|].Element? && r.children[|node.children|].name == name
  {
    var t := Current(ts, pos);
    if t == StartArray {
      ArrayElementStep(ts, pos, name, node, scopes);
    } else if IsInline(t) {
      InlineElementStep(ts, pos, name, node, scopes);
      BodyAppendsOneChild(ts, AttributeState(pos, [], scopes, false, false), name, node);
    } else {
      var attrs := AttributesSpec(ts, pos, [], scopes).value;
      ObjectElementStep(ts, pos, name, node, scopes, attrs);
      BodyAppendsOneChild(ts, attrs, name, node);
    }
  }

  /** ElementAppendsOneChild, once the attributes are read. */
  lemma BodyAppendsOneChild(ts: seq<Token>, attrs: AttributeState, name: string, node: XmlNode)
    requires attrs.pos <= |ts| && node.HasChildren()
    requires ElementBodySpec(ts, attrs, name, node).Success?
    ensures var r := ElementBodySpec(ts, attrs, name, node).value.node;
      && |r.children| == |node.children| + 1 && r.children[..|node.children|] == node.children
      && r.children[|node.children|].Element? && r.children[|node.children|].name == name
  {
    var t := Current(ts, attrs.pos);
    var element := CreatedElement(name, attrs.pairs, attrs.scopes);
    if IsScalar(t) {
      BodyScalarStep(ts, attrs, name, node);
    } else if t == Null || attrs.finishedElement {
      BodyEmptyStep(ts, attrs, name, node);
    } else {
      BodyContentStep(ts, attrs, name, node);
      var inner := NodeSpec(ts, attrs.pos, element, Push(attrs.scopes)).value;
      assert inner.node.(children := element.children) == element;
      assert inner.node.Element? && inner.node.name == name;
    }
  }

  /**
   * Every value DeserializeValue reads appends exactly one node to the node being filled,
   * leaving the earlier children as they were: an element when the name is plain, text
   * under "#text", an instruction under any other "?" name but "?xml".
   */
  lemma ValueAppendsOneChild(ts: seq<Token>, pos: nat, name: string, node: XmlNode, scopes: Scopes)
    requires pos <= |ts| && node.HasChildren()
    requires ValueSpec(ts, pos, name, node, scopes).Success?
    ensures var r := ValueSpec(ts, pos, name, node, scopes).value.node;
      && |r.children| == |node.children| + 1 && r.children[..|node.children|] == node.children
      && (IsPlainName(name) ==> r.children[|node.children|].Element? && r.children[|node.children|].name == name)
      && (name == TextName ==> r.children[|node.children|] == Text(ValueText(Current(ts, pos)).value))
      && (|name| > 0 && name[0] == '?' && name != DeclarationName ==>
        r.children[|node.children|] == ProcessingInstruction(name[1..], ValueText(Current(ts, pos)).value))
  {
    if IsPlainName(name) {
      PlainValueIsElement(ts, pos, name, node, scopes);
      ElementAppendsOneChild(ts, pos, name, node, scopes);
    } else if name in {TextName, CDataName, WhitespaceName, SignificantWhitespaceName} {
      assert TextName[0] == '#' && CDataName[0] == '#';
      assert WhitespaceName[0] == '#' && SignificantWhitespaceName[0] == '#';
    } else if |name| > 0 && name[0] == '?' {
    } else {
      ElementAppendsOneChild(ts, pos, name, node, scopes);
    }
  }

  /** The namespace CreateElement gives an element of this name in these scopes. */
  function ElementNamespace(name: string, scopes: Scopes): string {
    CreateElement(name, GetPrefix(name), scopes).namespaceUri
  }

  /** The element made for a scalar or null, before and after its text is appended. */
  lemma InlineElement(name: string, scopes: Scopes, text: string)
    ensures CreatedElement(name, [], scopes) == Element(name, ElementNamespace(name, scopes), [], [])
    ensures AppendChild(CreatedElement(name, [], scopes), Text(text))
      == Element(name, ElementNamespace(name, scopes), [], [Text(text)])
  {
    var e := CreatedElement(name, [], scopes);
    assert e.attributes == [];
    assert e == Element(name, ElementNamespace(name, scopes), [], []);
    assert [] + [Text(text)] == [Text(text)];
  }

  /** A scalar value under a plain name becomes an element whose only child is the scalar's text. */
  lemma ScalarIsTextElement(ts: seq<Token>, pos: nat, name: string, node: XmlNode, scopes: Scopes)
    requires IsPlainName(name) && node.HasChildren()
    requires pos < |ts| && IsScalar(ts[pos])
    ensures ValueSpec(ts, pos, name, node, scopes).Success?
    ensures ValueSpec(ts, pos, name, node, scopes).value == Progress(pos,
      AppendChild(node, Element(name, ElementNamespace(name, scopes), [], [Text(XmlText(ts[pos]))])), scopes)
  {
    PlainValueIsElement(ts, pos, name, node, scopes);
    InlineElementStep(ts, pos, name, node, scopes);
    var attrs := AttributeState(pos, [], scopes, false, false);
    BodyScalarStep(ts, attrs, name, node);
    InlineElement(name, scopes, XmlText(ts[pos]));
  }

  /**
   * A double or a date is rendered by reader.Value.ToString() under "#text" and by
   * XmlConvert.ToString() as an element's value, so the same token gives two different
   * texts depending on the key it is read under.
   */
  lemma ValueTextDependsOnKey(ts: seq<Token>, pos: nat, name: string, node: XmlNode, scopes: Scopes)
    requires IsPlainName(name) && node.HasChildren()
    requires pos < |ts| && (ts[pos].Float? || ts[pos].Date?)
    ensures ValueSpec(ts, pos, TextName, node, scopes).Success?
    ensures ValueSpec(ts, pos, TextName, node, scopes).value.node == AppendChild(node, Text(ts[pos].valueText))
    ensures ValueSpec(ts, pos, name, node, scopes).Success?
    ensures ValueSpec(ts, pos, name, node, scopes).value.node
      == AppendChild(node, Element(name, ElementNamespace(name, scopes), [], [Text(ts[pos].xmlText)]))
  {
    assert TextName[0] == '#';
    ScalarIsTextElement(ts, pos, name, node, scopes);
  }

  /** null under a plain name becomes an element with no attributes and no children. */
  lemma NullIsEmptyElement(ts: seq<Token>, pos: nat, name: string, node: XmlNode, scopes: Scopes)
    requires IsPlainName(name) && node.HasChildren()
    requires pos < |ts| && ts[pos] == Null
    ensures ValueSpec(ts, pos, name, node, scopes).Success?
    ensures ValueSpec(ts, pos, name, node, scopes).value == Progress(pos,
      AppendChild(node, Element(name, ElementNamespace(name, scopes), [], [])), scopes)
  {
    PlainValueIsElement(ts, pos, name, node, scopes);
    InlineElementStep(ts, pos, name, node, scopes);
    var attrs := AttributeState(pos, [], scopes, false, false);
    BodyEmptyStep(ts, attrs, name, node);
    InlineElement(name, scopes, "");
  }

  /** An item DeserializeValue reads without attributes or content: a scalar, or null. */
  predicate IsLeafItem(t: Token) {
    IsScalar(t) || t == Null
  }

  /** The element a scalar or null item becomes: its text as the only child, or no child at all. */
  function ItemElement(name: string, ns: string, t: Token): XmlNode
    requires IsLeafItem(t)
  {
    Element(name, ns, [], if IsScalar(t) then [Text(XmlText(t))] else [])
  }

  /** The tokens from pos on are the scalar or null items, in order. */
  predicate LeafItemsAt(ts: seq<Token>, pos: nat, items: seq<Token>)
    decreases |items|
  {
    pos + |items| <= |ts|
    && (items == [] || (ts[pos] == items[0] && IsLeafItem(items[0]) && LeafItemsAt(ts, pos + 1, items[1..])))
  }

  lemma LeafItemsAtTail(ts: seq<Token>, pos: nat, items: seq<Token>)
    requires LeafItemsAt(ts, pos, items) && items != []
    ensures ts[pos] == items[0] && IsLeafItem(items[0]) && LeafItemsAt(ts, pos + 1, items[1..])
  {
  }

  /** An element of the given name and namespace for each item, in order. */
  function ItemElements(name: string, ns: string, items: seq<Token>): (r: seq<XmlNode>)
    requires forall i | 0 <= i < |items| :: IsLeafItem(items[i])
    ensures |r| == |items|
  {
    if items == [] then [] else [ItemElement(name, ns, items[0])] + ItemElements(name, ns, items[1..])
  }

  /** The i-th element made from the items is the i-th item's element. */
  lemma {:induction false} ItemElementsHold(name: string, ns: string, items: seq<Token>, i: nat)
    requires forall j | 0 <= j < |items| :: IsLeafItem(items[j])
    requires i < |items|
    ensures ItemElements(name, ns, items)[i] == ItemElement(name, ns, items[i])
    decreases |items|
  {
    if i > 0 {
      ItemElementsHold(name, ns, items[1..], i - 1);
    }
  }

  /** Every item LeafItemsAt lists is a scalar or null. */
  lemma {:induction false} LeafItemsAreLeaves(ts: seq<Token>, pos: nat, items: seq<Token>)
    requires LeafItemsAt(ts, pos, items)
    ensures forall i | 0 <= i < |items| :: IsLeafItem(items[i])
    decreases |items|
  {
    if items != [] {
      LeafItemsAreLeaves(ts, pos + 1, items[1..]);
      assert forall i | 1 <= i < |items| :: items[i] == items[1..][i - 1];
    }
  }

  /** A scalar or null item of an array or a constructor appends its element and the loop goes on. */
  lemma LeafItemStep(ts: seq<Token>, pos: nat, end: Token, name: string, node: XmlNode, scopes: Scopes)
    requires IsPlainName(name) && node.HasChildren() && !IsLeafItem(end)
    requires pos + 1 < |ts| && IsLeafItem(ts[pos + 1])
    ensures ItemsSpec(ts, pos, end, name, node, scopes) == ItemsSpec(ts, pos + 1, end, name,
      AppendChild(node, ItemElement(name, ElementNamespace(name, scopes), ts[pos + 1])), scopes)
  {
    ItemsStep(ts, pos, end, name, node, scopes);
    if IsScalar(ts[pos + 1]) {
      ScalarIsTextElement(ts, pos + 1, name, node, scopes);
    } else {
      NullIsEmptyElement(ts, pos + 1, name, node, scopes);
    }
  }

  /** node with the nodes cs appended, in order. */
  function AppendChildren(node: XmlNode, cs: seq<XmlNode>): (r: XmlNode)
    requires node.HasChildren()
    ensures r.HasChildren() && r.children == node.children + cs
    ensures r.(children := node.children) == node
  {
    node.(children := node.children + cs)
  }

  /**
   * The items of an array (or of a constructor) that are scalars or null become one
   * element per item, all with the same name, in order: a scalar's element holds the
   * scalar's text, null's element is empty.
   */
  lemma LeafItemsAreElements(ts: seq<Token>, pos: nat, end: Token, name: string, node: XmlNode, scopes: Scopes, items: seq<Token>)
    requires IsPlainName(name) && node.HasChildren() && !IsLeafItem(end)
    requires pos + 1 + |items| < |ts|
    requires LeafItemsAt(ts, pos + 1, items) && ts[pos + 1 + |items|] == end
    ensures forall i | 0 <= i < |items| :: IsLeafItem(items[i])
    ensures ItemsSpec(ts, pos, end, name, node, scopes).Success?
    ensures ItemsSpec(ts, pos, end, name, node, scopes).value == Progress(pos + 1 + |items|,
      AppendChildren(node, ItemElements(name, ElementNamespace(name, scopes), items)), scopes)
  {
    LeafItemsAreLeaves(ts, pos + 1, items);
    LeafItemsReach(ts, pos, end, name, node, scopes, items,
      Progress(pos + 1 + |items|, AppendChildren(node, ItemElements(name, ElementNamespace(name, scopes), items)), scopes));
  }

  /** LeafItemsAreElements, by induction on the items, towards the given final progress. */
  lemma {:induction false} LeafItemsReach(ts: seq<Token>, pos: nat, end: Token, name: string, node: XmlNode, scopes: Scopes,
                                          items: seq<Token>, done: Progress)
    requires IsPlainName(name) && node.HasChildren() && !IsLeafItem(end)
    requires done.pos == pos + 1 + |items| && done.pos < |ts|
    requires LeafItemsAt(ts, pos + 1, items) && ts[done.pos] == end
    requires forall i | 0 <= i < |items| :: IsLeafItem(items[i])
    requires done.node == AppendChildren(node, ItemElements(name, ElementNamespace(name, scopes), items))
    requires done.scopes == scopes
    ensures ItemsSpec(ts, pos, end, name, node, scopes).Success? && ItemsSpec(ts, pos, end, name, node, scopes).value == done
    decreases |items|, 2
  {
    if items == [] {
      LeafItemsNone(ts, pos, end, name, node, scopes);
    } else {
      LeafItemsMore(ts, pos, end, name, node, scopes, items, done);
    }
  }

  /** The inductive step of LeafItemsReach: the first item, then the rest. */
  lemma {:induction false} LeafItemsMore(ts: seq<Token>, pos: nat, end: Token, name: string, node: XmlNode, scopes: Scopes,
                                         items: seq<Token>, done: Progress)
    requires IsPlainName(name) && node.HasChildren() && !IsLeafItem(end) && items != []
    requires done.pos == pos + 1 + |items| && done.pos < |ts|
    requires LeafItemsAt(ts, pos + 1, items) && ts[done.pos] == end
    requires forall i | 0 <= i < |items| :: IsLeafItem(items[i])
    requires done.node == AppendChildren(node, ItemElements(name, ElementNamespace(name, scopes), items))
    requires done.scopes == scopes
    ensures ItemsSpec(ts, pos, end, name, node, scopes).Success? && ItemsSpec(ts, pos, end, name, node, scopes).value == done
    decreases |items|, 1
  {
    assert ts[pos + 1] == items[0] by {
      LeafItemsAtTail(ts, pos + 1, items);
    }
    LeafItemStep(ts, pos, end, name, node, scopes);
    LeafItemsRest(ts, pos, end, name, node, scopes, items, done);
  }

  /** The rest of the items in LeafItemsMore, read after the first item's element. */
  lemma {:induction false} LeafItemsRest(ts: seq<Token>, pos: nat, end: Token, name: string, node: XmlNode, scopes: Scopes,
                                         items: seq<Token>, done: Progress)
    requires IsPlainName(name) && node.HasChildren() && !IsLeafItem(end) && items != []
    requires done.pos == pos + 1 + |items| && done.pos < |ts|
    requires LeafItemsAt(ts, pos + 1, items) && ts[done.pos] == end
    requires forall i | 0 <= i < |items| :: IsLeafItem(items[i])
    requires done.node == AppendChildren(node, ItemElements(name, ElementNamespace(name, scopes), items))
    requires done.scopes == scopes
    ensures var next := AppendChild(node, ItemElement(name, ElementNamespace(name, scopes), items[0]));
      ItemsSpec(ts, pos + 1, end, name, next, scopes).Success? && ItemsSpec(ts, pos + 1, end, name, next, scopes).value == done
    decreases |items|, 0
  {
    var next := AppendChild(node, ItemElement(name, ElementNamespace(name, scopes), items[0]));
    LeafItemsRestReady(ts, pos, name, node, scopes, items, done);
    LeafItemsReach(ts, pos + 1, end, name, next, scopes, items[1..], done);
  }

  /** LeafItemsRest's items after the first meet LeafItemsReach's requirements from the next position. */
  lemma LeafItemsRestReady(ts: seq<Token>, pos: nat, name: string, node: XmlNode, scopes: Scopes, items: seq<Token>, done: Progress)
    requires node.HasChildren() && items != []
    requires done.pos == pos + 1 + |items| && done.pos < |ts|
    requires LeafItemsAt(ts, pos + 1, items)
    requires forall i | 0 <= i < |items| :: IsLeafItem(items[i])
    requires done.node == AppendChildren(node, ItemElements(name, ElementNamespace(name, scopes), items))
    ensures var ns := ElementNamespace(name, scopes);
      var rest := items[1..];
      && LeafItemsAt(ts, pos + 1 + 1, rest) && done.pos == pos + 1 + 1 + |rest|
      && (forall i | 0 <= i < |rest| :: IsLeafItem(rest[i]))
      && done.node == AppendChildren(AppendChild(node, ItemElement(name, ns, items[0])), ItemElements(name, ns, rest))
  {
    var ns := ElementNamespace(name, scopes);
    var rest := items[1..];
    LeafItemsAtTail(ts, pos + 1, items);
    assert forall i | 0 <= i < |rest| :: rest[i] == items[i + 1];
    AppendFirstItem(node, name, ns, items);
  }

  /** The base case of LeafItemsAreElements: the end token at once. */
  lemma LeafItemsNone(ts: seq<Token>, pos: nat, end: Token, name: string, node: XmlNode, scopes: Scopes)
    requires node.HasChildren() && pos + 1 < |ts| && ts[pos + 1] == end
    ensures ItemsSpec(ts, pos, end, name, node, scopes).Success?
    ensures ItemsSpec(ts, pos, end, name, node, scopes).value == Progress(pos + 1,
      AppendChildren(node, ItemElements(name, ElementNamespace(name, scopes), [])), scopes)
  {
    ItemsEndStep(ts, pos, end, name, node, scopes);
    assert AppendChildren(node, ItemElements(name, ElementNamespace(name, scopes), [])) == node;
  }

  /** Appending the item elements is appending the first, then the rest. */
  lemma AppendFirstItem(node: XmlNode, name: string, ns: string, items: seq<Token>)
    requires node.HasChildren() && items != []
    requires forall i | 0 <= i < |items| :: IsLeafItem(items[i])
    ensures forall i | 0 <= i < |items[1..]| :: IsLeafItem(items[1..][i])
    ensures AppendChildren(node, ItemElements(name, ns, items))
      == AppendChildren(AppendChild(node, ItemElement(name, ns, items[0])), ItemElements(name, ns, items[1..]))
  {
    assert forall i | 0 <= i < |items[1..]| :: items[1..][i] == items[i + 1];
    var e := ItemElement(name, ns, items[0]);
    assert ItemElements(name, ns, items) == [e] + ItemElements(name, ns, items[1..]);
    assert node.children + ([e] + ItemElements(name, ns, items[1..]))
      == (node.children + [e]) + ItemElements(name, ns, items[1..]);
  }

  /**
   * A property whose value is an array of scalars or nulls becomes sibling elements, one
   * per item, all named after the property: the reading of a repeated element.
   */
  lemma LeafArrayIsSiblings(ts: seq<Token>, pos: nat, name: string, node: XmlNode, scopes: Scopes, items: seq<Token>)
    requires IsPlainName(name) && node.Element?
    requires pos + 2 + |items| < |ts|
    requires ts[pos] == PropertyName(name) && ts[pos + 1] == StartArray
    requires LeafItemsAt(ts, pos + 2, items) && ts[pos + 2 + |items|] == EndArray
    ensures forall i | 0 <= i < |items| :: IsLeafItem(items[i])
    ensures NodeCaseSpec(ts, pos, node, scopes).Success?
    ensures NodeCaseSpec(ts, pos, node, scopes).value == LoopPass(Progress(pos + 2 + |items|,
      AppendChildren(node, ItemElements(name, ElementNamespace(name, scopes), items)),
      scopes), false)
  {
    PropertyArrayStep(ts, pos, name, node, scopes);
    LeafItemsAreElements(ts, pos + 1, EndArray, name, node, scopes, items);
    NodePropertyStep(ts, pos, name, node, scopes, Progress(pos + 2 + |items|,
      AppendChildren(node, ItemElements(name, ElementNamespace(name, scopes), items)), scopes));
  }

  /**
   * The scalar and null items of a constructor become elements named "-" and the
   * constructor's name, which is how the forward pass names the arguments of a
   * constructor: new Date(1, "UTC") becomes two "-Date" elements holding "1" and "UTC".
   */
  lemma ConstructorItemsAreElements(ts: seq<Token>, pos: nat, c: string, node: XmlNode, scopes: Scopes, items: seq<Token>)
    requires node.Element?
    requires pos + 1 + |items| < |ts|
    requires ts[pos] == StartConstructor(c)
    requires LeafItemsAt(ts, pos + 1, items) && ts[pos + 1 + |items|] == EndConstructor
    ensures forall i | 0 <= i < |items| :: IsLeafItem(items[i])
    ensures NodeCaseSpec(ts, pos, node, scopes).Success?
    ensures NodeCaseSpec(ts, pos, node, scopes).value == LoopPass(Progress(pos + 1 + |items|,
      AppendChildren(node, ItemElements("-" + c, ElementNamespace("-" + c, scopes), items)),
      scopes), false)
  {
    LeafItemsAreElements(ts, pos, EndConstructor, "-" + c, node, scopes, items);
    NodeConstructorStep(ts, pos, c, node, scopes, Progress(pos + 1 + |items|,
      AppendChildren(node, ItemElements("-" + c, ElementNamespace("-" + c, scopes), items)), scopes));
  }

  /** The leaf kinds the forward pass writes as a key and a string and the reverse pass reads back. */
  predicate ReadableLeaf(n: XmlNode) {
    n.Text? || n.CData? || n.Whitespace? || n.SignificantWhitespace? || (n.ProcessingInstruction? && n.target != "xml")
  }

  /**
   * Round trip of the leaves: the key and the string the forward pass writes for a text,
   * CDATA, whitespace or processing-instruction node are read back, into an element, as
   * that very node.
   */
  lemma LeafRoundTrip(n: XmlNode, ts: seq<Token>, pos: nat, node: XmlNode, scopes: Scopes)
    requires ReadableLeaf(n) && node.Element?
    requires NodeTokens(n, true).Success? && pos + 1 < |ts|
    requires ts[pos..pos + 2] == NodeTokens(n, true).value
    ensures NodeCaseSpec(ts, pos, node, scopes).Success?
    ensures NodeCaseSpec(ts, pos, node, scopes).value == LoopPass(Progress(pos + 1, AppendChild(node, n), scopes), false)
  {
    assert !IsJsonMetadata(n);
    var key := GetPropertyName(n).value;
    var done := Progress(pos + 1, AppendChild(node, n), scopes);
    assert ts[pos] == PropertyName(key) && ts[pos + 1] == String(n.value);
    assert PropertySpec(ts, pos, key, node, scopes).Success? && PropertySpec(ts, pos, key, node, scopes).value == done by {
      PropertyValueStep(ts, pos, key, node, scopes);
      LeafValueReads(n, key, ts, pos + 1, node, scopes);
    }
    NodePropertyStep(ts, pos, key, node, scopes, done);
  }

  /** LeafRoundTrip for the value: the leaf's string, read under the leaf's key, is the leaf. */
  lemma LeafValueReads(n: XmlNode, key: string, ts: seq<Token>, pos: nat, node: XmlNode, scopes: Scopes)
    requires ReadableLeaf(n) && node.HasChildren()
    requires GetPropertyName(n).Success? && key == GetPropertyName(n).value
    requires pos < |ts| && ts[pos] == String(n.value)
    ensures ValueSpec(ts, pos, key, node, scopes).Success?
    ensures ValueSpec(ts, pos, key, node, scopes).value == Progress(pos, AppendChild(node, n), scopes)
  {
    if n.ProcessingInstruction? {
      assert key[0] == '?' && key[1..] == n.target;
      assert key != DeclarationName by { assert DeclarationName[1..] == "xml"; }
    }
    ValueAppendsOneChild(ts, pos, key, node, scopes);
  }

  /**
   * Round trip of the elements written as a string or as null: an element with no
   * attributes holding one text node, or nothing at all, reads back as itself when its
   * name is plain and the scopes bind its prefix (if any) to its namespace.
   */
  lemma SimpleElementRoundTrip(n: XmlNode, ts: seq<Token>, pos: nat, node: XmlNode, scopes: Scopes)
    requires n.Element? && n.attributes == [] && IsPlainName(n.name)
    requires n.children == [] || (|n.children| == 1 && n.children[0].Text?)
    requires GetPrefix(n.name) == "" ==> n.namespaceUri == ""
    requires GetPrefix(n.name) != "" ==> Lookup(scopes, GetPrefix(n.name)) == Some(n.namespaceUri)
    requires node.Element?
    requires NodeTokens(n, true).Success? && pos + 1 < |ts|
    requires ts[pos..pos + 2] == NodeTokens(n, true).value
    ensures NodeCaseSpec(ts, pos, node, scopes).Success?
    ensures NodeCaseSpec(ts, pos, node, scopes).value == LoopPass(Progress(pos + 1, AppendChild(node, n), scopes), false)
  {
    var done := Progress(pos + 1, AppendChild(node, n), scopes);
    assert ts[pos] == PropertyName(n.name) && ts[pos + 1] == NodeTokens(n, true).value[1];
    assert ElementNamespace(n.name, scopes) == n.namespaceUri;
    assert PropertySpec(ts, pos, n.name, node, scopes).Success? && PropertySpec(ts, pos, n.name, node, scopes).value == done by {
      PropertyValueStep(ts, pos, n.name, node, scopes);
      if n.children == [] {
        SimpleEmptyElementReads(n, ts, pos + 1, node, scopes);
      } else {
        SimpleTextElementReads(n, ts, pos + 1, node, scopes);
      }
    }
    NodePropertyStep(ts, pos, n.name, node, scopes, done);
  }

  /** SimpleElementRoundTrip for an element with no children, written as null. */
  lemma SimpleEmptyElementReads(n: XmlNode, ts: seq<Token>, pos: nat, node: XmlNode, scopes: Scopes)
    requires n.Element? && n.attributes == [] && n.children == [] && IsPlainName(n.name)
    requires ElementNamespace(n.name, scopes) == n.namespaceUri && node.HasChildren()
    requires NodeTokens(n, true).Success? && |NodeTokens(n, true).value| == 2
    requires pos < |ts| && ts[pos] == NodeTokens(n, true).value[1]
    ensures ValueSpec(ts, pos, n.name, node, scopes).Success?
    ensures ValueSpec(ts, pos, n.name, node, scopes).value == Progress(pos, AppendChild(node, n), scopes)
  {
    EmptyElementIsNull(n.name, n.namespaceUri, true);
    NullIsEmptyElement(ts, pos, n.name, node, scopes);
  }

  /** SimpleElementRoundTrip for an element holding one text, written as a string. */
  lemma SimpleTextElementReads(n: XmlNode, ts: seq<Token>, pos: nat, node: XmlNode, scopes: Scopes)
    requires n.Element? && n.attributes == [] && |n.children| == 1 && n.children[0].Text? && IsPlainName(n.name)
    requires ElementNamespace(n.name, scopes) == n.namespaceUri && node.HasChildren()
    requires NodeTokens(n, true).Success? && |NodeTokens(n, true).value| == 2
    requires pos < |ts| && ts[pos] == NodeTokens(n, true).value[1]
    ensures ValueSpec(ts, pos, n.name, node, scopes).Success?
    ensures ValueSpec(ts, pos, n.name, node, scopes).value == Progress(pos, AppendChild(node, n), scopes)
  {
    var text := n.children[0].value;
    TextElementIsString(n.name, n.namespaceUri, [], text, true);
    ScalarIsTextElement(ts, pos, n.name, node, scopes);
    assert n == Element(n.name, n.namespaceUri, [], [Text(text)]);
  }

  /** A property with a string value, read into node, with the reader moved on to the token after it. */
  lemma StringPropertyPass(ts: seq<Token>, pos: nat, a: string, x: string, node: XmlNode, scopes: Scopes) returns (next: XmlNode)
    requires IsPlainName(a) && (node.Element? || node == Document([]))
    requires pos + 2 < |ts| && ts[pos] == PropertyName(a) && ts[pos + 1] == String(x)
    ensures next == AppendChild(node, Element(a, ElementNamespace(a, scopes), [], [Text(x)]))
    ensures NodeSpec(ts, pos, node, scopes) == NodeSpec(ts, pos + 2, next, scopes)
  {
    next := AppendChild(node, Element(a, ElementNamespace(a, scopes), [], [Text(x)]));
    var done := Progress(pos + 1, next, scopes);
    assert PropertySpec(ts, pos, a, node, scopes).Success? && PropertySpec(ts, pos, a, node, scopes).value == done by {
      PropertyValueStep(ts, pos, a, node, scopes);
      ScalarIsTextElement(ts, pos + 1, a, node, scopes);
      assert XmlText(ts[pos + 1]) == x;
    }
    assert !(node.Document? && HasDocumentElement(node));
    NodePropertyThenNext(ts, pos, a, node, scopes, done);
  }

  /**
   * An illustration of DeserializeRoot.RootNameMakesRootElement on two string properties: with a root
   * element name, the root object's properties all become children of that root element,
   * which is the document's only child.
   */
  lemma RootNameHoldsSeveralProperties(ts: seq<Token>, root: string, a: string, x: string, b: string, y: string)
    requires root != "" && IsPlainName(a) && IsPlainName(b)
    requires |ts| == 6 && ts[0] == StartObject && ts[1] == PropertyName(a) && ts[2] == String(x)
    requires ts[3] == PropertyName(b) && ts[4] == String(y) && ts[5] == EndObject
    ensures ReadJsonSpec(ts, 0, root).Success?
    ensures ReadJsonSpec(ts, 0, root).value == Document([Element(root, "", [], [
      Element(a, ElementNamespace(a, InitialScopes()), [], [Text(x)]),
      Element(b, ElementNamespace(b, InitialScopes()), [], [Text(y)])])])
  {
    var body := RootObjectBody(ts, root, a, x, b, y);
    ReadJsonRootStep(ts, 0, root, body);
  }

  /** The two string properties and the end of the root object, read into the root node. */
  lemma RootObjectBody(ts: seq<Token>, root: string, a: string, x: string, b: string, y: string) returns (body: XmlNode)
    requires IsPlainName(a) && IsPlainName(b)
    requires |ts| == 6 && ts[1] == PropertyName(a) && ts[2] == String(x)
    requires ts[3] == PropertyName(b) && ts[4] == String(y) && ts[5] == EndObject
    ensures NodeSpec(ts, 1, Element(root, "", [], []), InitialScopes()).Success?
    ensures NodeSpec(ts, 1, Element(root, "", [], []), InitialScopes()).value.node == body
    ensures body == Element(root, "", [], [
      Element(a, ElementNamespace(a, InitialScopes()), [], [Text(x)]),
      Element(b, ElementNamespace(b, InitialScopes()), [], [Text(y)])])
  {
    var scopes := InitialScopes();
    var rootNode := Element(root, "", [], []);
    var first := StringPropertyPass(ts, 1, a, x, rootNode, scopes);
    var second := StringPropertyPass(ts, 3, b, y, first, scopes);
    NodeEndStep(ts, 5, second, scopes);
    body := second;
    var e1 := Element(a, ElementNamespace(a, scopes), [], [Text(x)]);
    var e2 := Element(b, ElementNamespace(b, scopes), [], [Text(y)]);
    assert first.children == rootNode.children + [e1];
    assert body.children == rootNode.children + [e1] + [e2];
    assert rootNode.children == [];
    assert body.children == [e1, e2];
  }

  /**
   * The switch of DeserializeNode refuses every token other than a property name, the
   * start of a constructor and the end of an object or an array.
   */
  lemma NodeOtherTokenFails(ts: seq<Token>, pos: nat, node: XmlNode, scopes: Scopes)
    requires pos <= |ts| && node.HasChildren()
    requires !Current(ts, pos).PropertyName? && !Current(ts, pos).StartConstructor?
    requires Current(ts, pos) != EndObject && Current(ts, pos) != EndArray
    ensures NodeCaseSpec(ts, pos, node, scopes).Failure? && NodeCaseSpec(ts, pos, node, scopes).error == UnexpectedToken
    ensures NodeSpec(ts, pos, node, scopes).Failure? && NodeSpec(ts, pos, node, scopes).error == UnexpectedToken
  {
  }

  /** A root object whose first token is not a property name is refused: {1} raises UnexpectedToken. */
  lemma ReadJsonOtherTokenFails(t: Token, rootName: string)
    requires !t.PropertyName? && !t.StartConstructor? && t != EndObject && t != EndArray
    ensures ReadJsonSpec([StartObject, t, EndObject], 0, rootName).Failure?
    ensures ReadJsonSpec([StartObject, t, EndObject], 0, rootName).error == UnexpectedToken
  {
    var ts := [StartObject, t, EndObject];
    var rootNode := if rootName != "" then Element(rootName, "", [], []) else Document([]);
    NodeOtherTokenFails(ts, 1, rootNode, InitialScopes());
  }

  /** The "?xml" loop refuses every key other than "@version", "@encoding" and "@standalone". */
  lemma UnknownDeclarationKeyFails(ts: seq<Token>, pos: nat, k: string,
      version: Option<string>, encoding: Option<string>, standalone: Option<string>)
    requires pos + 1 < |ts| && ts[pos + 1] == PropertyName(k)
    requires k != "@version" && k != "@encoding" && k != "@standalone"
    ensures DeclarationSpec(ts, pos, version, encoding, standalone).Failure?
    ensures DeclarationSpec(ts, pos, version, encoding, standalone).error == UnexpectedDeclarationProperty
  {
  }

  /** {"?xml": {k: x}} with an unknown key k raises UnexpectedDeclarationProperty. */
  lemma ReadJsonUnknownDeclarationKey(k: string, x: string)
    requires k != "@version" && k != "@encoding" && k != "@standalone"
    ensures var ts := [StartObject, PropertyName(DeclarationName), StartObject, PropertyName(k), String(x), EndObject, EndObject];
      ReadJsonSpec(ts, 0, "").Failure? && ReadJsonSpec(ts, 0, "").error == UnexpectedDeclarationProperty
  {
    var ts := [StartObject, PropertyName(DeclarationName), StartObject, PropertyName(k), String(x), EndObject, EndObject];
    var root := Document([]);
    UnknownDeclarationKeyFails(ts, 2, k, None, None, None);
    assert DeclarationName[0] == '?' && DeclarationName[0] != '#';
    assert ValueSpec(ts, 2, DeclarationName, root, InitialScopes()).Failure?;
    PropertyValueStep(ts, 1, DeclarationName, root, InitialScopes());
    assert NodeCaseSpec(ts, 1, root, InitialScopes()).Failure?;
  }

  /** A declaration field as the forward pass leaves it: an empty value is not written, so it reads back as null. */
  function Written(value: string): (r: Option<string>)
    ensures OrEmpty(r) == value
  {
    if value == "" then None else Some(value)
  }

  /** One pair written by WriteDeclarationAttribute fills its field in the "?xml" loop, and an empty one is skipped. */
  lemma DeclarationPairStep(ts: seq<Token>, q: nat, name: string, value: string,
      version: Option<string>, encoding: Option<string>, standalone: Option<string>)
    requires name == "@version" || name == "@encoding" || name == "@standalone"
    requires PairAt(ts, q, name, value)
    ensures DeclarationSpec(ts, q, version, encoding, standalone) == DeclarationSpec(ts, q + |DeclarationPair(name, value)|,
      if name == "@version" && value != "" then Some(value) else version,
      if name == "@encoding" && value != "" then Some(value) else encoding,
      if name == "@standalone" && value != "" then Some(value) else standalone)
  {
  }

  /** The object WriteJson writes for a declaration, after its "?xml" key. */
  function DeclarationObject(n: XmlNode): seq<Token>
    requires n.Declaration?
  {
    [StartObject] + DeclarationPair("@version", n.version) + DeclarationPair("@encoding", n.encoding)
      + DeclarationPair("@standalone", n.standalone) + [EndObject]
  }

  /** The "?xml" loop reads the written object into the three fields, stopping on its closing brace. */
  lemma DeclarationObjectRead(n: XmlNode, ts: seq<Token>, q: nat)
    requires n.Declaration?
    requires q + |DeclarationObject(n)| <= |ts| && ts[q..q + |DeclarationObject(n)|] == DeclarationObject(n)
    ensures DeclarationSpec(ts, q, None, None, None).Success?
    ensures DeclarationSpec(ts, q, None, None, None).value
      == DeclarationFields(q + |DeclarationObject(n)| - 1, Written(n.version), Written(n.encoding), Written(n.standalone))
  {
    var o := DeclarationObject(n);
    var p1 := DeclarationPair("@version", n.version);
    var p2 := DeclarationPair("@encoding", n.encoding);
    var p3 := DeclarationPair("@standalone", n.standalone);
    var q1 := q + |p1|;
    var q2 := q1 + |p2|;
    var q3 := q2 + |p3|;
    assert |o| == q3 + 2 - q;
    PairInObject(ts, q, o, [StartObject], "@version", n.version, p2 + p3 + [EndObject]);
    PairInObject(ts, q, o, [StartObject] + p1, "@encoding", n.encoding, p3 + [EndObject]);
    PairInObject(ts, q, o, [StartObject] + p1 + p2, "@standalone", n.standalone, [EndObject]);
    assert ts[q3 + 1] == EndObject by {
      assert ts[q3 + 1] == o[|o| - 1];
    }
    DeclarationChain(ts, q, n.version, n.encoding, n.standalone);
  }

  /** The pair WriteDeclarationAttribute writes for name and value follows position q. */
  predicate PairAt(ts: seq<Token>, q: nat, name: string, value: string) {
    q + |DeclarationPair(name, value)| < |ts|
    && (value != "" ==> ts[q + 1] == PropertyName(name) && ts[q + 2] == String(value))
  }

  /** A pair inside the object the tokens from q hold follows the position before it. */
  lemma PairInObject(ts: seq<Token>, q: nat, o: seq<Token>, before: seq<Token>, name: string, value: string, after: seq<Token>)
    requires o == before + DeclarationPair(name, value) + after && |before| > 0 && |after| > 0
    requires q + |o| <= |ts| && ts[q..q + |o|] == o
    ensures PairAt(ts, q + |before| - 1, name, value)
  {
    if value != "" {
      assert ts[q + |before|] == o[|before|];
      assert ts[q + |before| + 1] == o[|before| + 1];
    }
  }

  /** The three pairs, then the closing brace, read one after the other by the "?xml" loop. */
  lemma DeclarationChain(ts: seq<Token>, q: nat, version: string, encoding: string, standalone: string)
    requires PairAt(ts, q, "@version", version)
    requires PairAt(ts, q + |DeclarationPair("@version", version)|, "@encoding", encoding)
    requires PairAt(ts, q + |DeclarationPair("@version", version)| + |DeclarationPair("@encoding", encoding)|, "@standalone", standalone)
    requires var end := q + |DeclarationPair("@version", version)| + |DeclarationPair("@encoding", encoding)|
      + |DeclarationPair("@standalone", standalone)| + 1;
      end < |ts| && ts[end] == EndObject
    ensures var end := q + |DeclarationPair("@version", version)| + |DeclarationPair("@encoding", encoding)|
      + |DeclarationPair("@standalone", standalone)| + 1;
      DeclarationSpec(ts, q, None, None, None) == Success(DeclarationFields(end, Written(version), Written(encoding), Written(standalone)))
  {
    var q1 := q + |DeclarationPair("@version", version)|;
    var q2 := q1 + |DeclarationPair("@encoding", encoding)|;
    var q3 := q2 + |DeclarationPair("@standalone", standalone)|;
    DeclarationPairStep(ts, q, "@version", version, None, None, None);
    DeclarationPairStep(ts, q1, "@encoding", encoding, Written(version), None, None);
    DeclarationPairStep(ts, q2, "@standalone", standalone, Written(version), Written(encoding), None);
    DeclarationEnd(ts, q3, Written(version), Written(encoding), Written(standalone));
  }

  /** The "?xml" loop stops on the closing brace with the fields it has read. */
  lemma DeclarationEnd(ts: seq<Token>, q: nat, version: Option<string>, encoding: Option<string>, standalone: Option<string>)
    requires q + 1 < |ts| && ts[q + 1] == EndObject
    ensures DeclarationSpec(ts, q, version, encoding, standalone) == Success(DeclarationFields(q + 1, version, encoding, standalone))
  {
  }

  /**
   * Round trip of the declaration: the "?xml" property the forward pass writes, each field
   * only when it is not empty, reads back as the same declaration, the reader on the
   * closing brace.
   */
  lemma DeclarationRoundTrip(n: XmlNode, ts: seq<Token>, pos: nat, node: XmlNode, scopes: Scopes)
    requires n.Declaration? && node.HasChildren()
    requires pos + |LeafTokens(n, true).value| <= |ts|
    requires ts[pos..pos + |LeafTokens(n, true).value|] == LeafTokens(n, true).value
    ensures PropertySpec(ts, pos, DeclarationName, node, scopes).Success?
    ensures PropertySpec(ts, pos, DeclarationName, node, scopes).value
      == Progress(pos + |LeafTokens(n, true).value| - 1, AppendChild(node, n), scopes)
  {
    var w := LeafTokens(n, true).value;
    var o := DeclarationObject(n);
    assert w == [PropertyName(DeclarationName)] + o;
    assert ts[pos + 1..pos + 1 + |o|] == o by {
      assert ts[pos + 1..pos + 1 + |o|] == w[1..];
    }
    DeclarationObjectRead(n, ts, pos + 1);
    assert DeclarationName[0] == '?' && DeclarationName[0] != '#';
    assert ts[pos + 1] == StartObject by {
      assert ts[pos + 1] == o[0];
    }
    PropertyValueStep(ts, pos, DeclarationName, node, scopes);
  }
}
