/**
 * The XmlNamespaceManager the reverse pass threads through: a stack of scopes, each a
 * map from prefix to namespace URI. AddNamespace writes into the innermost scope,
 * PushScope opens an empty one, PopScope discards the innermost one (never the first),
 * and LookupNamespace searches from the innermost scope outwards.
 */
module Namespaces {
  import opened Results

  const XmlNamespace: string := "http://www.w3.org/XML/1998/namespace"
  const XmlnsNamespace: string := "http://www.w3.org/2000/xmlns/"

  /** The scopes, outermost first; the manager always has at least one. */
  type Scopes = s: seq<map<string, string>> | |s| > 0 witness [map[]]

  /** A new manager knows the empty prefix, "xml" and "xmlns". */
  function InitialScopes(): Scopes {
    [map["" := "", "xml" := XmlNamespace, "xmlns" := XmlnsNamespace]]
  }

  /** AddNamespace: the prefix bound to uri in the innermost scope. */
  function Declare(s: Scopes, prefix: string, uri: string): (r: Scopes)
    ensures |r| == |s|
  {
    s[..|s| - 1] + [s[|s| - 1][prefix := uri]]
  }

  /** PushScope. */
  function Push(s: Scopes): (r: Scopes) {
    s + [map[]]
  }

  /** PopScope: the innermost scope dropped, unless it is the only one. */
  function Pop(s: Scopes): (r: Scopes) {
    if |s| > 1 then s[..|s| - 1] else s
  }

  /** LookupNamespace: the binding of the innermost scope that binds prefix; None is null. */
  function Lookup(s: seq<map<string, string>>, prefix: string): (r: Option<string>)
    ensures r.Some? <==> exists i | 0 <= i < |s| :: prefix in s[i]
    decreases |s|
  {
    if s == [] then None
    else if prefix in s[|s| - 1] then Some(s[|s| - 1][prefix])
    else
      var r := Lookup(s[..|s| - 1], prefix);
      assert forall i | 0 <= i < |s| - 1 :: s[..|s| - 1][i] == s[i];
      r
  }

  /** A declaration is seen by every later lookup of its prefix, and changes no other prefix. */
  lemma DeclareThenLookup(s: Scopes, prefix: string, uri: string, other: string)
    ensures Lookup(Declare(s, prefix, uri), prefix) == Some(uri)
    ensures other != prefix ==> Lookup(Declare(s, prefix, uri), other) == Lookup(s, other)
  {
    var d := Declare(s, prefix, uri);
    assert d[..|d| - 1] == s[..|s| - 1];
  }

  /** A pushed scope is empty: it changes no lookup, and popping it restores the manager. */
  lemma PushThenPop(s: Scopes, prefix: string)
    ensures Lookup(Push(s), prefix) == Lookup(s, prefix)
    ensures Pop(Push(s)) == s
  {
    assert Push(s)[..|s|] == s;
  }

  /**
   * What an element's declarations do when they are added before the element's own scope
   * is pushed: they land in the enclosing scope, so they are still in force once the
   * element's scope is popped again.
   */
  lemma DeclarationOutlivesScope(s: Scopes, prefix: string, uri: string, inner: Scopes)
    requires |inner| == |Declare(s, prefix, uri)| + 1
    requires inner[..|inner| - 1] == Declare(s, prefix, uri)
    ensures Lookup(Pop(inner), prefix) == Some(uri)
  {
    DeclareThenLookup(s, prefix, uri, prefix);
  }

  /** The declarations that a scope pushed after them makes, are undone by the pop. */
  lemma PoppedDeclarationIsGone(s: Scopes, prefix: string, uri: string)
    ensures Pop(Declare(Push(s), prefix, uri)) == s
  {
    assert Declare(Push(s), prefix, uri)[..|s|] == s;
  }

  /** System.Xml's XmlNamespaceManager, as the converter uses it. */
  class XmlNamespaceManager {
    var scopes: Scopes

    constructor ()
      ensures scopes == InitialScopes()
    {
      scopes := InitialScopes();
    }

    function LookupNamespace(prefix: string): (r: Option<string>)
      reads this
      ensures r == Lookup(scopes, prefix)
    {
      Lookup(scopes, prefix)
    }

    method AddNamespace(prefix: string, uri: string)
      modifies this
      ensures scopes == Declare(old(scopes), prefix, uri)
    {
      scopes := Declare(scopes, prefix, uri);
    }

    method PushScope()
      modifies this
      ensures scopes == Push(old(scopes))
    {
      scopes := Push(scopes);
    }

    method PopScope() returns (popped: bool)
      modifies this
      ensures popped <==> |old(scopes)| > 1
      ensures scopes == Pop(old(scopes))
    {
      popped := |scopes| > 1;
      scopes := Pop(scopes);
    }
  }
}
