/**
 * XmlNodeConverter's reserved vocabulary and its pure name utilities: GetPrefix,
 * IsNamespaceAttribute, GetPropertyName and ValueAttributes.
 */
module ConverterNames {
  import opened Results
  import opened ConvertErrors
  import opened XmlDom

  const TextName: string := "#text"
  const CommentName: string := "#comment"
  const CDataName: string := "#cdata-section"
  const WhitespaceName: string := "#whitespace"
  const SignificantWhitespaceName: string := "#significant-whitespace"
  const DeclarationName: string := "?xml"
  /** The namespace of the converter's own metadata attributes, such as json:Array. */
  const JsonNamespaceUri: string := "http://james.newtonking.com/projects/json"

  /**
   * GetPrefix: the text before the first colon of a qualified name, or the empty
   * string when there is no colon, the colon comes first, or the colon comes last.
   */
  function GetPrefix(qualifiedName: string): (prefix: string)
    ensures ':' !in prefix
    ensures prefix != "" ==>
      |prefix| + 1 < |qualifiedName| && qualifiedName[..|prefix| + 1] == prefix + [':']
    ensures prefix == "" <==>
      || ':' !in qualifiedName
      || qualifiedName[0] == ':'
      || (':' !in qualifiedName[..|qualifiedName| - 1] && qualifiedName[|qualifiedName| - 1] == ':')
  {
    var colonPosition := IndexOf(qualifiedName, ':');
    if colonPosition == -1 || colonPosition == 0 || |qualifiedName| - 1 == colonPosition then ""
    else qualifiedName[..colonPosition]
  }

  /** The qualified name with prefix p and local part l. */
  function QualifiedName(p: string, l: string): string {
    if p == "" then l else p + ":" + l
  }

  /** GetPrefix recovers the prefix a qualified name was built from. */
  lemma GetPrefixOfQualifiedName(p: string, l: string)
    requires ':' !in p && ':' !in l && l != ""
    ensures GetPrefix(QualifiedName(p, l)) == p
  {
    if p != "" {
      var q := QualifiedName(p, l);
      assert q[..|p|] == p && q[|p|] == ':';
      var i := IndexOf(q, ':');
      assert i == |p| by {
        assert ':' in q[..|p| + 1];
      }
      assert q[..i] == p;
    }
  }

  /**
   * IsNamespaceAttribute: "xmlns" declares the default namespace (prefix ""), and
   * "xmlns:p" declares prefix p; any other name, "xmlnsfoo" among them, is no declaration
   * (None stands for the null out-parameter).
   */
  function IsNamespaceAttribute(attributeName: string): (prefix: Option<string>)
    ensures prefix.Some? <==>
      attributeName == "xmlns" || (|attributeName| > 5 && attributeName[..6] == "xmlns:")
    ensures attributeName == "xmlns" ==> prefix == Some("")
    ensures prefix.Some? && attributeName != "xmlns" ==> prefix.value == attributeName[6..]
  {
    if |attributeName| >= 5 && attributeName[..5] == "xmlns" then
      if |attributeName| == 5 then Some("")
      else if attributeName[5] == ':' then Some(attributeName[6..])
      else None
    else None
  }

  /** The attribute name that declares prefix p. */
  function DeclarationAttributeName(p: string): string {
    if p == "" then "xmlns" else "xmlns:" + p
  }

  /** IsNamespaceAttribute recognises every declaration name and returns the prefix it declares. */
  lemma IsNamespaceAttributeOfDeclaration(p: string)
    ensures IsNamespaceAttribute(DeclarationAttributeName(p)) == Some(p)
  {
    if p != "" {
      assert ("xmlns:" + p)[6..] == p;
    }
  }

  /** The node kinds GetPropertyName has a key for. */
  predicate HasPropertyName(n: XmlNode) {
    !(n.Document? || n.DocumentFragment? || n.DocumentType? || n.EntityReference?)
  }

  /**
   * GetPropertyName: the JSON key a node is filed under. Attributes are "@" + name,
   * elements their own (qualified) name, processing instructions "?" + target, and the
   * other kinds a fixed name; any other kind raises UnexpectedNodeType.
   */
  function GetPropertyName(n: XmlNode): (key: Result<string, ConvertError>)
    ensures key.Success? <==> HasPropertyName(n)
    ensures key.Failure? ==> key.error == UnexpectedNodeType
    ensures n.Attribute? ==> key == Success("@" + n.name)
    ensures n.Element? ==> key == Success(n.name)
    ensures n.ProcessingInstruction? ==> key == Success("?" + n.target)
    ensures key.Success? && !(n.Attribute? || n.Element? || n.ProcessingInstruction?) ==>
      key.value in {CDataName, CommentName, DeclarationName, SignificantWhitespaceName, TextName, WhitespaceName}
  {
    match n
    case Attribute(name, _, _) => Success("@" + name)
    case CData(_) => Success(CDataName)
    case Comment(_) => Success(CommentName)
    case Element(name, _, _, _) => Success(name)
    case ProcessingInstruction(target, _) => Success("?" + target)
    case Declaration(_, _, _) => Success(DeclarationName)
    case SignificantWhitespace(_) => Success(SignificantWhitespaceName)
    case Text(_) => Success(TextName)
    case Whitespace(_) => Success(WhitespaceName)
    case _ => Failure(UnexpectedNodeType)
  }

  /** A name no reserved key can be confused with: non-empty, not starting with '#', '?' or '@'. */
  predicate IsPlainName(s: string) {
    |s| > 0 && s[0] != '#' && s[0] != '?' && s[0] != '@'
  }

  /** The kind of a node, forgetting its contents. */
  function KindOf(n: XmlNode): nat {
    match n
    case Document(_) => 0
    case DocumentFragment(_) => 1
    case Element(_, _, _, _) => 2
    case Attribute(_, _, _) => 3
    case Text(_) => 4
    case CData(_) => 5
    case Comment(_) => 6
    case Whitespace(_) => 7
    case SignificantWhitespace(_) => 8
    case ProcessingInstruction(_, _) => 9
    case Declaration(_, _, _) => 10
    case DocumentType(_) => 11
    case EntityReference(_) => 12
  }

  /** The name that takes part in a node's key: element and attribute name, instruction target. */
  function KeyedName(n: XmlNode): string {
    if n.Element? || n.Attribute? then n.name
    else if n.ProcessingInstruction? then n.target
    else ""
  }

  /**
   * Reads a key back: the kind (as KindOf numbers it) and the name of the node it was
   * made from, the inverse of GetPropertyName.
   */
  function KeyClass(key: string): (nat, string) {
    if key == TextName then (4, "")
    else if key == CDataName then (5, "")
    else if key == CommentName then (6, "")
    else if key == WhitespaceName then (7, "")
    else if key == SignificantWhitespaceName then (8, "")
    else if key == DeclarationName then (10, "")
    else if |key| > 0 && key[0] == '?' then (9, key[1..])
    else if |key| > 0 && key[0] == '@' then (3, key[1..])
    else (2, key)
  }

  /**
   * A key determines the kind and the name of its node, provided element names and
   * instruction targets are plain names and no instruction is targeted "xml".
   */
  lemma {:induction false} KeyClassInvertsPropertyName(n: XmlNode)
    requires HasPropertyName(n)
    requires n.Element? ==> IsPlainName(n.name)
    requires n.ProcessingInstruction? ==> n.target != "xml"
    ensures KeyClass(GetPropertyName(n).value) == (KindOf(n), KeyedName(n))
  {
    assert TextName[0] == '#' && CDataName[0] == '#' && CommentName[0] == '#';
    assert WhitespaceName[0] == '#' && SignificantWhitespaceName[0] == '#';
    assert DeclarationName[0] == '?';
    var key := GetPropertyName(n).value;
    match n
    case Attribute(name, _, _) =>
      assert key[0] == '@' && key[1..] == name;
    case ProcessingInstruction(target, _) =>
      assert key[0] == '?' && key[1..] == target;
      assert key != DeclarationName by { assert DeclarationName[1..] == "xml"; }
    case Element(name, _, _, _) =>
      assert key == name && key[0] != '#' && key[0] != '?' && key[0] != '@';
    case _ =>
  }

  /**
   * Keys never merge nodes of different kinds or names: when element names and
   * instruction targets are plain names and no target is "xml", two nodes share a key
   * exactly when they have the same kind and the same name.
   */
  lemma {:induction false} PropertyNameSeparatesKinds(m: XmlNode, n: XmlNode)
    requires HasPropertyName(m) && HasPropertyName(n)
    requires m.Element? ==> IsPlainName(m.name)
    requires n.Element? ==> IsPlainName(n.name)
    requires m.ProcessingInstruction? ==> m.target != "xml"
    requires n.ProcessingInstruction? ==> n.target != "xml"
    ensures GetPropertyName(m) == GetPropertyName(n) <==> KindOf(m) == KindOf(n) && KeyedName(m) == KeyedName(n)
  {
    KeyClassInvertsPropertyName(m);
    KeyClassInvertsPropertyName(n);
  }

  /** ValueAttributes: the attributes that carry data, i.e. those outside the JSON namespace, in order. */
  function ValueAttributes(attributes: seq<XmlNode>): (r: seq<XmlNode>)
    ensures |r| <= |attributes|
  {
    if attributes == [] then []
    else
      var rest := ValueAttributes(attributes[1..]);
      if attributes[0].NamespaceURI() != JsonNamespaceUri then [attributes[0]] + rest else rest
  }

  /** ValueAttributes keeps exactly the attributes outside the JSON namespace. */
  lemma {:induction false} ValueAttributesFilters(attributes: seq<XmlNode>)
    ensures forall a | a in ValueAttributes(attributes) :: a in attributes && a.NamespaceURI() != JsonNamespaceUri
    ensures forall a | a in attributes && a.NamespaceURI() != JsonNamespaceUri :: a in ValueAttributes(attributes)
  {
    if attributes != [] {
      ValueAttributesFilters(attributes[1..]);
      assert attributes == [attributes[0]] + attributes[1..];
    }
  }
}
