# XmlNodeConverter, modelled in Dafny

This project models the core of Json.NET's `XmlNodeConverter`, the converter between an XML
document (`System.Xml.XmlNode`) and a JSON token stream. It has two passes.

- **Forward pass (XML to JSON).** `WriteJson` and `SerializeNode` walk a node tree and write
  tokens to a `JsonWriter`. `SerializeGroupedNodes` groups the children of a node by their
  JSON key. A key with several children becomes one array. A single child becomes a plain
  property, unless its `json:Array` attribute reads as true.
- **Reverse pass (JSON to XML).** `ReadJson`, `DeserializeNode` and `DeserializeValue` pull
  tokens from a `JsonReader` and build an `XmlDocument`. An `XmlNamespaceManager` resolves
  element and attribute prefixes. Leading `"@"` properties become attributes, and an
  `xmlns` attribute among them declares a namespace.

Each pass is stated twice.

- **Functions of the input** (modules `SerializeSpec`, `DeserializeSpec`). They give the
  tokens written, or the node built, or the exception raised.
- **Imperative methods in the source's shape** (modules `Serialization`, `Deserialization`).
  The writer, the reader and the namespace manager are classes whose fields the methods
  update: `JsonWriter.tokens`, `JsonReader.pos` and `XmlNamespaceManager.scopes`. Every
  loop of the source is a `while` loop with its invariants. Each method is proved to do
  exactly what its function describes.

The lemmas state what the converter promises about those functions:

- the key table and its inverse;
- the grouping as a first-seen partition of the children;
- the cases of an element, in order;
- that the converter's own metadata writes nothing;
- that the writer never throws on a well-formed tree whose serialization succeeds;
- the round trip: ReadJson reads back what WriteJson writes for any convertible element,
  with each element's children regrouped by key, and exactly the element when siblings of
  one key are contiguous;
- how attributes and namespace declarations are read;
- how the "?xml" object is read into a declaration, and that an unknown key in it, or an
  unexpected token where DeserializeNode expects a property, raises an error;
- the root-object rules: a second document-level property fails, and a root element name
  always gives one document element.

Exceptions are values of `ConvertErrors.ConvertError`, carried in `Result` and `Outcome`.

The modules, leaves first:

- `Results` and `ConvertErrors`: result types and exceptions.
- `XmlDom`: node kinds, qualified names and `AppendChild`.
- `XmlConvert`: `ToBoolean`, and `ToString` of integers and booleans.
- `ConverterNames`: the reserved keys, `GetPrefix`, `IsNamespaceAttribute`,
  `GetPropertyName` and `ValueAttributes`.
- `Grouping`: the dictionary of `SerializeGroupedNodes`.
- `JsonTokens`, `JsonWriting`, `JsonReading`: tokens, the writer and the reader.
- `SerializeSpec`, `Serialization`, `SerializeProperties`, `SerializeNesting`: the forward pass.
- `Namespaces`: the namespace manager.
- `DeserializeSpec`, `DeserializeSteps`, `Deserialization`, `DeserializeProperties`,
  `DeserializeRoot`: the reverse pass.
- `RoundTrip`: the reverse pass applied to what the forward pass writes.

Two behaviours of the code are worth stating outright:

- **Element keys.** An element's JSON key is its qualified name `node.Name`, prefix
  included.
- **Namespace scope.** `AddNamespace` (line 406) runs while the attributes are read, before
  `PushScope` (line 473). An element's namespace declarations therefore land in the
  enclosing scope and stay in force for its later siblings.
  `DeserializeProperties.DeclarationLeaksToSibling` exhibits it.

## Model

All source paths are in `iOS/Newtonsoft.Json/Converters/XmlNodeConverter.cs`.

| member | source | states |
|---|---|---|
| ConverterNames.GetPrefix | iOS/Newtonsoft.Json/Converters/XmlNodeConverter.cs:560-568 | The prefix is empty exactly when the name has no colon, starts with one, or its only colon is its last character. Otherwise it is the colon-free text before the first colon. |
| ConverterNames.GetPrefixOfQualifiedName | iOS/Newtonsoft.Json/Converters/XmlNodeConverter.cs:560-568 | GetPrefix recovers p from the qualified name p:l, and the empty prefix from an unprefixed name. |
| ConverterNames.IsNamespaceAttribute | iOS/Newtonsoft.Json/Converters/XmlNodeConverter.cs:541-558 | A name is a declaration exactly when it is "xmlns" or starts with "xmlns:". The prefix is "" for "xmlns", and otherwise the text after "xmlns:". "xmlnsfoo" is no declaration. |
| ConverterNames.IsNamespaceAttributeOfDeclaration | iOS/Newtonsoft.Json/Converters/XmlNodeConverter.cs:541-558 | Every declaration name is recognised and yields the prefix it declares. |
| ConverterNames.GetPropertyName | iOS/Newtonsoft.Json/Converters/XmlNodeConverter.cs:74-99 | Keys are "@"+name for attributes, the name for elements and "?"+target for instructions. The other kinds get their fixed reserved key. The call fails, with UnexpectedNodeType, exactly for the kinds without a key. |
| ConverterNames.KeyClassInvertsPropertyName | iOS/Newtonsoft.Json/Converters/XmlNodeConverter.cs:74-99 | A key determines its node's kind and name. This holds when element names do not start with '#', '?' or '@' and no instruction is named "xml". |
| ConverterNames.PropertyNameSeparatesKinds | iOS/Newtonsoft.Json/Converters/XmlNodeConverter.cs:74-99 | Under the same conditions, two nodes share a key exactly when they have the same kind and name. |
| ConverterNames.ValueAttributesFilters | iOS/Newtonsoft.Json/Converters/XmlNodeConverter.cs:570-573 | ValueAttributes keeps exactly the attributes outside the JSON namespace. |
| XmlConvert.ToBoolean | iOS/Newtonsoft.Json/Converters/XmlNodeConverter.cs:133 | After trimming XML whitespace, "true" and "1" read as true and "false" and "0" as false. Any other text is a format error. |
| XmlConvert.ToBooleanInvertsFromBoolean | iOS/Newtonsoft.Json/Converters/XmlNodeConverter.cs:455-458 | The text XmlConvert writes for a boolean reads back as that boolean. |
| XmlConvert.ParseIntInvertsFromInt | iOS/Newtonsoft.Json/Converters/XmlNodeConverter.cs:447-450 | The decimal text written for an integer token reads back as the integer, negative values included. |
| Grouping.GroupNodesFails | iOS/Newtonsoft.Json/Converters/XmlNodeConverter.cs:104-119 | The grouping loop succeeds exactly when every child has a key. |
| Grouping.GroupNodesGroups | iOS/Newtonsoft.Json/Converters/XmlNodeConverter.cs:104-119 | Each key is enumerated once, with a non-empty list. That list is exactly the children with that key, in document order. Every child is filed. |
| Grouping.GroupsPartitionNodes | iOS/Newtonsoft.Json/Converters/XmlNodeConverter.cs:104-119 | Across all groups, the grouped lists are a permutation of the children. |
| Grouping.GroupOrderIsFirstSeen | iOS/Newtonsoft.Json/Converters/XmlNodeConverter.cs:104-123 | Groups are enumerated in the order in which their keys first occur among the children. |
| Serialization.GroupChildNodes | iOS/Newtonsoft.Json/Converters/XmlNodeConverter.cs:104-119 | The first loop of SerializeGroupedNodes builds exactly the grouping GroupNodes describes, or raises its error. |
| SerializeSpec.WriteAsArray | iOS/Newtonsoft.Json/Converters/XmlNodeConverter.cs:125-140 | A group of two or more is always an array. A single node is an array only when its json:Array attribute reads as true. A marker that is not a boolean raises a format error. |
| SerializeSpec.FindAttribute | iOS/Newtonsoft.Json/Converters/XmlNodeConverter.cs:131 | The indexer finds an attribute with local name and namespace as asked, or reports that there is none. |
| SerializeSpec.ConstructorNameIsFirst | iOS/Newtonsoft.Json/Converters/XmlNodeConverter.cs:185-188 | The constructor is named after the first child element whose name starts with '-', without the '-'. |
| SerializeSpec.LeafTokens | iOS/Newtonsoft.Json/Converters/XmlNodeConverter.cs:214-257 | Among the kinds without children, serialization fails, with UnexpectedNodeType, exactly for document types and entity references. |
| Serialization.WriteJson | iOS/Newtonsoft.Json/Converters/XmlNodeConverter.cs:62-72 | Writes the node's tokens inside one object, or raises the node's exception. |
| Serialization.SerializeNode | iOS/Newtonsoft.Json/Converters/XmlNodeConverter.cs:162-259 | Appends to the writer exactly the tokens NodeTokens gives, or raises its exception. |
| Serialization.SerializeLeaf | iOS/Newtonsoft.Json/Converters/XmlNodeConverter.cs:214-257 | The comment, value-node and declaration cases write LeafTokens, and the other kinds raise UnexpectedNodeType. |
| Serialization.WriteDeclarationAttribute | iOS/Newtonsoft.Json/Converters/XmlNodeConverter.cs:238-252 | A declaration field is written as a property only when it is not empty. |
| Serialization.SerializeElement | iOS/Newtonsoft.Json/Converters/XmlNodeConverter.cs:170-213 | The element case writes NodeTokens: its cases are a single text child, then empty, then constructor, then object. |
| Serialization.SerializeElementConstructor | iOS/Newtonsoft.Json/Converters/XmlNodeConverter.cs:185-198 | Writes a constructor of every child without property names, or raises a child's exception. |
| Serialization.SerializeElementObject | iOS/Newtonsoft.Json/Converters/XmlNodeConverter.cs:199-211 | Writes an object of the attributes, then the grouped children. |
| Serialization.SerializeSequence | iOS/Newtonsoft.Json/Converters/XmlNodeConverter.cs:192-195 | The loop over a node list writes each node's tokens in turn. It stops at the first exception. |
| Serialization.SerializeGroupedNodes | iOS/Newtonsoft.Json/Converters/XmlNodeConverter.cs:101-160 | Writes exactly GroupedTokens: the groups in first-seen order, or the grouping's exception. |
| Serialization.SerializeGroups | iOS/Newtonsoft.Json/Converters/XmlNodeConverter.cs:123-159 | The enumeration loop writes each group's tokens in key order. It stops at the first exception. |
| Serialization.SerializeGroup | iOS/Newtonsoft.Json/Converters/XmlNodeConverter.cs:125-158 | A group is written either as its single node with its own key, or as the key and an array of every member without names. |
| SerializeProperties.MetadataEmitsNothing | iOS/Newtonsoft.Json/Converters/XmlNodeConverter.cs:224-227 | Attributes in the JSON namespace, and the xmlns declaration of that namespace, write no tokens. |
| SerializeProperties.NoValueAttributes | iOS/Newtonsoft.Json/Converters/XmlNodeConverter.cs:570-573 | An element whose attributes are all json:* has no value attributes. |
| SerializeProperties.TextElementIsString | iOS/Newtonsoft.Json/Converters/XmlNodeConverter.cs:174-179 | An element with one text child and only json:* attributes is written as a string. |
| SerializeProperties.EmptyElementIsNull | iOS/Newtonsoft.Json/Converters/XmlNodeConverter.cs:180-184 | An element with no children and no attributes is written as null. |
| SerializeProperties.MarkedEmptyElementIsEmptyObject | iOS/Newtonsoft.Json/Converters/XmlNodeConverter.cs:174-211 | An element with no children but some json:* attributes misses the null case and is written as an empty object. |
| SerializeProperties.ConstructorElement | iOS/Newtonsoft.Json/Converters/XmlNodeConverter.cs:185-198 | An element with two or more "-" children is a constructor named after the first of them, holding every child. |
| SerializeNesting.NodeNests | iOS/Newtonsoft.Json/Converters/XmlNodeConverter.cs:162-259 | On a well-formed tree, SerializeNode's tokens are accepted by the writer, which ends where it started, with every container closed. |
| SerializeNesting.ElementNests | iOS/Newtonsoft.Json/Converters/XmlNodeConverter.cs:170-213 | The same holds for each of the four element cases. |
| SerializeNesting.ArrayNests | iOS/Newtonsoft.Json/Converters/XmlNodeConverter.cs:146-158 | A group written as an array is a well-nested key and array, whose items carry no property names. |
| SerializeNesting.DeclarationsAlone | iOS/Newtonsoft.Json/Converters/XmlNodeConverter.cs:233-235 | A document's "?xml" group has at most one member, so the declaration is never written as an array item. |
| SerializeNesting.WriteJsonNests | iOS/Newtonsoft.Json/Converters/XmlNodeConverter.cs:62-72 | WriteJson on a well-formed node writes one complete JSON value that the writer accepts. |
| JsonTokens.ValueText | iOS/Newtonsoft.Json/Converters/XmlNodeConverter.cs:306 | reader.Value.ToString() succeeds exactly on tokens with a value, and raises NullValue on the others. |
| DeserializeProperties.ValueTextDependsOnKey | iOS/Newtonsoft.Json/Converters/XmlNodeConverter.cs:451-463 | A float or date token read as an element's value holds XmlConvert.ToString()'s text. The same token read under "#text" (line 306) holds reader.Value.ToString()'s text instead, and the two renderings can differ. |
| JsonReading.JsonReader.Read | iOS/Newtonsoft.Json/Converters/XmlNodeConverter.cs:294 | Moves one token on, never past the end. It returns whether a token remains. |
| Namespaces.DeclareThenLookup | iOS/Newtonsoft.Json/Converters/XmlNodeConverter.cs:406 | A declared prefix is found with its URI, and no other prefix changes. |
| Namespaces.PushThenPop | iOS/Newtonsoft.Json/Converters/XmlNodeConverter.cs:473-477 | A pushed scope changes no lookup, and popping it restores the manager. |
| Namespaces.DeclarationOutlivesScope | iOS/Newtonsoft.Json/Converters/XmlNodeConverter.cs:404-477 | A declaration added before the element's scope is pushed is still in force after the pop. |
| Namespaces.PoppedDeclarationIsGone | iOS/Newtonsoft.Json/Converters/XmlNodeConverter.cs:473-477 | A declaration made after a push is undone by the pop. |
| Namespaces.XmlNamespaceManager.AddNamespace | iOS/Newtonsoft.Json/Converters/XmlNodeConverter.cs:406 | Binds the prefix in the innermost scope. |
| Namespaces.XmlNamespaceManager.PopScope | iOS/Newtonsoft.Json/Converters/XmlNodeConverter.cs:477 | Drops the innermost scope, but never the first one. |
| DeserializeSpec.CreateElement | iOS/Newtonsoft.Json/Converters/XmlNodeConverter.cs:485-490 | Creates an empty element of the given name. With no prefix it has no namespace. Otherwise its namespace is the one the manager binds the prefix to. |
| DeserializeSpec.CreatedElement | iOS/Newtonsoft.Json/Converters/XmlNodeConverter.cs:423-441 | The element created once its attributes are read: one attribute per collected pair, and no children. |
| DeserializeSpec.AttributesSpec | iOS/Newtonsoft.Json/Converters/XmlNodeConverter.cs:388-420 | The attribute loop stops on a plain property name, at the end of the object, or at the end of the stream. It never pops or pushes a scope. |
| DeserializeSpec.ValueSpec | iOS/Newtonsoft.Json/Converters/XmlNodeConverter.cs:301-483 | DeserializeValue changes only the children of the node it fills, and moves the reader only forward. That it appends exactly one node is DeserializeProperties.ValueAppendsOneChild. |
| DeserializeSpec.NodeCaseSpec | iOS/Newtonsoft.Json/Converters/XmlNodeConverter.cs:496-530 | A pass of DeserializeNode that does not return moves the reader on, so the loop terminates. |
| DeserializeProperties.NodeOtherTokenFails | iOS/Newtonsoft.Json/Converters/XmlNodeConverter.cs:527-529 | DeserializeNode raises UnexpectedToken on any token other than a property name, the start of a constructor, or the end of an object or array. |
| DeserializeProperties.ReadJsonOtherTokenFails | iOS/Newtonsoft.Json/Converters/XmlNodeConverter.cs:527-529 | A root object whose first token is such a token, {1} say, makes ReadJson raise UnexpectedToken, whatever the root name. |
| DeserializeSpec.ReadJsonSpec | iOS/Newtonsoft.Json/Converters/XmlNodeConverter.cs:270-299 | JSON that does not begin with an object is refused with NotAnObject. Otherwise the result is a document. |
| Deserialization.ReadJson | iOS/Newtonsoft.Json/Converters/XmlNodeConverter.cs:270-299 | Returns exactly the document, or the exception, that ReadJsonSpec gives. |
| Deserialization.DeserializeValue | iOS/Newtonsoft.Json/Converters/XmlNodeConverter.cs:301-483 | Leaves the reader, the manager and the node where ValueSpec says, or raises its exception. |
| Deserialization.ReadDeclaration | iOS/Newtonsoft.Json/Converters/XmlNodeConverter.cs:323-345 | The "?xml" loop reads exactly what DeclarationSpec gives. The declaration lemmas below say what that is. |
| DeserializeProperties.UnknownDeclarationKeyFails | iOS/Newtonsoft.Json/Converters/XmlNodeConverter.cs:326-344 | A key other than @version, @encoding or @standalone in the "?xml" object raises UnexpectedDeclarationProperty, whatever the loop has read so far. |
| DeserializeProperties.ReadJsonUnknownDeclarationKey | iOS/Newtonsoft.Json/Converters/XmlNodeConverter.cs:326-344 | ReadJson on {"?xml": {k: x}} with an unknown key k raises UnexpectedDeclarationProperty. |
| DeserializeProperties.DeclarationChain | iOS/Newtonsoft.Json/Converters/XmlNodeConverter.cs:326-341 | The "?xml" loop fills version from @version, encoding from @encoding and standalone from @standalone. A field without its key stays null. The loop stops on the closing brace. |
| DeserializeProperties.DeclarationRoundTrip | iOS/Newtonsoft.Json/Converters/XmlNodeConverter.cs:320-348 | The "?xml" property WriteJson writes for a declaration, which leaves out empty fields, reads back as that same declaration. The reader ends on the closing brace. |
| Deserialization.ReadAttributes | iOS/Newtonsoft.Json/Converters/XmlNodeConverter.cs:388-420 | The attribute loop, which declares namespaces as it meets them, matches AttributesSpec. |
| Deserialization.SetAttributes | iOS/Newtonsoft.Json/Converters/XmlNodeConverter.cs:429-441 | Each collected attribute is created and set on the element, in order. |
| Deserialization.DeserializeElement | iOS/Newtonsoft.Json/Converters/XmlNodeConverter.cs:356-480 | The element branch matches ElementSpec. |
| Deserialization.FinishElement | iOS/Newtonsoft.Json/Converters/XmlNodeConverter.cs:423-479 | The element is created after its attributes, and its content is read inside a scope of its own. |
| Deserialization.DeserializeNode | iOS/Newtonsoft.Json/Converters/XmlNodeConverter.cs:492-533 | The do-while loop matches NodeSpec. |
| Deserialization.DeserializeNodeCase | iOS/Newtonsoft.Json/Converters/XmlNodeConverter.cs:496-530 | One pass of the switch matches NodeCaseSpec, and reports whether it returned. |
| Deserialization.DeserializeProperty | iOS/Newtonsoft.Json/Converters/XmlNodeConverter.cs:498-516 | A property's value, or each item of its array value, is read into the current node. |
| Deserialization.DeserializeItems | iOS/Newtonsoft.Json/Converters/XmlNodeConverter.cs:507-510 | The item loop matches ItemsSpec. |
| DeserializeProperties.AttributesCollected | iOS/Newtonsoft.Json/Converters/XmlNodeConverter.cs:388-420 | Exactly the leading "@" properties are collected, in order. Each namespace declaration among them is added. The loop stops on the token after them and tells which kind it is. |
| DeserializeProperties.DeclareAll | iOS/Newtonsoft.Json/Converters/XmlNodeConverter.cs:404-407 | The namespace declarations among the attributes change only the innermost scope. |
| DeserializeProperties.DeclareAllBinds | iOS/Newtonsoft.Json/Converters/XmlNodeConverter.cs:404-407 | After the declarations, a prefix is bound in the innermost scope exactly when it was bound before or some attribute declares it. |
| DeserializeProperties.DeclareAllKeeps | iOS/Newtonsoft.Json/Converters/XmlNodeConverter.cs:404-407 | A prefix no attribute declares keeps its binding. |
| DeserializeProperties.DeclareAllLastWins | iOS/Newtonsoft.Json/Converters/XmlNodeConverter.cs:404-407 | A declared prefix is bound to the URI of its last declaration, because AddNamespace overwrites a binding of the same scope. |
| DeserializeProperties.AttributeObjectIsElement | iOS/Newtonsoft.Json/Converters/XmlNodeConverter.cs:388-441 | An object of attributes only becomes one element carrying them, created in scopes that already hold its declarations. Those declarations stay in force afterwards. |
| DeserializeProperties.OwnDeclarationQualifiesElement | iOS/Newtonsoft.Json/Converters/XmlNodeConverter.cs:402-427 | A prefixed element that declares its own prefix lands in that namespace, and the binding outlives the element. |
| DeserializeProperties.DeclarationLeaksToSibling | iOS/Newtonsoft.Json/Converters/XmlNodeConverter.cs:404-477 | In {"a": {"@xmlns:p": uri}, "p:l": null}, the element p:l gets namespace uri from its sibling's declaration. |
| DeserializeProperties.ConstructorAbsorbsSibling | iOS/Newtonsoft.Json/Converters/XmlNodeConverter.cs:517-531 | In {"a": new d(s), "b": x}, the loop test after the constructor reads past EndConstructor inside a's own DeserializeNode. The property b is therefore read into a, after the "-d" element, instead of becoming a's sibling. |
| DeserializeProperties.ValueAppendsOneChild | iOS/Newtonsoft.Json/Converters/XmlNodeConverter.cs:301-483 | Every value appends exactly one node and keeps the earlier children. A plain name gives an element of that name, "#text" a text node, and "?target" an instruction. |
| DeserializeProperties.ScalarIsTextElement | iOS/Newtonsoft.Json/Converters/XmlNodeConverter.cs:443-463 | A scalar under a plain name becomes an element whose only child is the scalar's text. |
| DeserializeProperties.NullIsEmptyElement | iOS/Newtonsoft.Json/Converters/XmlNodeConverter.cs:464-467 | null under a plain name becomes an element with neither attributes nor children. |
| DeserializeProperties.LeafItemsAreElements | iOS/Newtonsoft.Json/Converters/XmlNodeConverter.cs:507-510 | The scalar and null items of an array or a constructor become one element per item, in order, all of one name. A scalar's element holds the scalar's text, and null's element is empty. The reader stops on the closing token. |
| DeserializeProperties.LeafArrayIsSiblings | iOS/Newtonsoft.Json/Converters/XmlNodeConverter.cs:498-511 | A property whose value is an array of scalars or nulls becomes sibling elements, one per item, all named after the property. |
| DeserializeProperties.ConstructorItemsAreElements | iOS/Newtonsoft.Json/Converters/XmlNodeConverter.cs:517-524 | The scalar and null items of a constructor become elements named "-" followed by the constructor's name: new Date(1, "UTC") gives two "-Date" elements holding "1" and "UTC". |
| DeserializeProperties.RootNameHoldsSeveralProperties | iOS/Newtonsoft.Json/Converters/XmlNodeConverter.cs:281-289 | An illustration of DeserializeRoot.RootNameMakesRootElement: with a root element name, two string properties of the root object both become children of that element, which is the document's only child. |
| DeserializeRoot.RootNameMakesRootElement | iOS/Newtonsoft.Json/Converters/XmlNodeConverter.cs:281-299 | With a root element name, a successful ReadJson gives a document whose only child is an element of that name, without namespace or attributes. Whatever the input, the call never raises MultipleRootProperties. |
| DeserializeRoot.NodeNoRoot | iOS/Newtonsoft.Json/Converters/XmlNodeConverter.cs:492-533 | DeserializeNode on any node but the document never raises MultipleRootProperties, whatever the tokens. |
| DeserializeRoot.ValueNoRoot | iOS/Newtonsoft.Json/Converters/XmlNodeConverter.cs:301-483 | DeserializeValue never raises MultipleRootProperties, whatever node it fills. |
| DeserializeRoot.PropertyNoRoot | iOS/Newtonsoft.Json/Converters/XmlNodeConverter.cs:498-516 | Reading a property's value, or the items of an array value, never raises MultipleRootProperties. |
| DeserializeRoot.ItemsNoRoot | iOS/Newtonsoft.Json/Converters/XmlNodeConverter.cs:507-510 | The item loop of an array or a constructor never raises MultipleRootProperties. |
| DeserializeRoot.AttributesNoRoot | iOS/Newtonsoft.Json/Converters/XmlNodeConverter.cs:388-420 | The attribute loop never raises MultipleRootProperties. |
| DeserializeRoot.DeclarationNoRoot | iOS/Newtonsoft.Json/Converters/XmlNodeConverter.cs:323-345 | The "?xml" loop never raises MultipleRootProperties. |
| DeserializeRoot.ItemsAppendElements | iOS/Newtonsoft.Json/Converters/XmlNodeConverter.cs:507-510 | Under a plain name, the item loop keeps the earlier children and every node it appends is an element of that name. |
| DeserializeRoot.PropertyAppendsElements | iOS/Newtonsoft.Json/Converters/XmlNodeConverter.cs:498-516 | Under a plain name, a property keeps the earlier children and every node it appends is an element of that name. |
| DeserializeRoot.SecondRootPropertyFails | iOS/Newtonsoft.Json/Converters/XmlNodeConverter.cs:494-500 | Without a root element name, once the first property of the root object has made an element (any value but an empty array does), the next property raises MultipleRootProperties. |
| DeserializeRoot.EmptyArrayLeavesRootOpen | iOS/Newtonsoft.Json/Converters/XmlNodeConverter.cs:494-511 | An illustration of the case SecondRootPropertyFails leaves out: an empty array makes no element, so in {"a": [], "b": null} the property b is still read and becomes the document element. |
| Grouping.GroupsKeepContiguousOrder | iOS/Newtonsoft.Json/Converters/XmlNodeConverter.cs:104-123 | When children of one key stand next to each other, enumerating the groups in key order gives back the children in document order. |
| RoundTrip.WriteJsonRoundTrip | iOS/Newtonsoft.Json/Converters/XmlNodeConverter.cs:62-72 | For a convertible element, ReadJson without a root name reads what WriteJson writes as the document holding that element, with every element's children regrouped by key in first-seen order. |
| RoundTrip.WriteJsonReadsBack | iOS/Newtonsoft.Json/Converters/XmlNodeConverter.cs:270-299 | For a convertible element whose same-key siblings are contiguous, ReadJson reads back exactly the element WriteJson wrote, as the only child of the document. |
| RoundTrip.RegroupedContiguous | iOS/Newtonsoft.Json/Converters/XmlNodeConverter.cs:101-160 | In a tree whose same-key siblings are contiguous, regrouping changes nothing. |
| RoundTrip.SplitSiblingsMove | iOS/Newtonsoft.Json/Converters/XmlNodeConverter.cs:104-123 | Same-key siblings that are not contiguous are moved together: children a, b, a come back as a, a, b. |
| RoundTrip.ValueReads | iOS/Newtonsoft.Json/Converters/XmlNodeConverter.cs:301-483 | The tokens SerializeNode writes for a convertible node without its key are read by DeserializeValue as that node regrouped. The reader ends on the value's last token and the scopes are unchanged. |
| RoundTrip.ObjectReads | iOS/Newtonsoft.Json/Converters/XmlNodeConverter.cs:388-479 | An element written as an object of attributes and groups is read back as the element with the same attributes and its children regrouped. |
| RoundTrip.GroupsRead | iOS/Newtonsoft.Json/Converters/XmlNodeConverter.cs:492-533 | The groups SerializeGroupedNodes writes are read by DeserializeNode's loop one after the other. Each appends its nodes regrouped, up to the end of the object. |
| RoundTrip.GroupRead | iOS/Newtonsoft.Json/Converters/XmlNodeConverter.cs:498-516 | One group, written as a single property or as a key and an array, is read back as a property that appends its nodes regrouped. |
| RoundTrip.ItemsRead | iOS/Newtonsoft.Json/Converters/XmlNodeConverter.cs:507-510 | The unnamed items of an array group are read back by the item loop, each appending its node regrouped, in order. |
| RoundTrip.LoneCommentReadFails | iOS/Newtonsoft.Json/Converters/XmlNodeConverter.cs:388-420 | A lone comment child is written as a comment token inside its parent's object: <a><!--c--></a> gives {"a": {/*c*/}}. Reading it back, the attribute loop refuses that token with UnexpectedToken. |
| RoundTrip.CommentsWriteNothing | iOS/Newtonsoft.Json/Converters/XmlNodeConverter.cs:214-217 | Comments written without a property name, as array items are, emit no token at all. |
| RoundTrip.CommentsDropped | iOS/Newtonsoft.Json/Converters/XmlNodeConverter.cs:124-158 | Two comments are written as an empty array under "#comment": <a><!--c--><!--d--></a> gives {"a": {"#comment": []}}. It reads back as an empty element a. |
| DeserializeProperties.LeafRoundTrip | iOS/Newtonsoft.Json/Converters/XmlNodeConverter.cs:303-354 | The key and string written for a text, CDATA, whitespace or instruction node read back as that very node. |
| DeserializeProperties.SimpleElementRoundTrip | iOS/Newtonsoft.Json/Converters/XmlNodeConverter.cs:443-467 | An element without attributes, written as a string or as null, reads back as itself. This needs a plain name and, for a prefixed name, scopes that bind the prefix to its namespace. |

## Left out

- The type checks and `CanConvert` are not modelled: `objectType != typeof(XmlDocument)` (lines 273-274), `value as XmlNode` (lines 64-67) and lines 588-591. Every call is taken to be on an `XmlDocument` or an `XmlNode`.
- `ValueNodes` (lines 575-578) is not modelled: nothing calls it.
- The JSON text encoding is left out: the writer and the reader are token streams. A `JsonWriter`'s own errors are modelled only as the nesting discipline that `SerializeNesting` proves the forward pass keeps.
- Float and date tokens carry two given texts, not a double or a `DateTime`: the culture-dependent `ToString()` rendering that `JsonTokens.ValueText` returns (lines 306-352, 399) and the `XmlConvert.ToString` rendering that `JsonTokens.XmlText` returns (lines 451-463). Floating-point and `DateTime` formatting themselves are not modelled, so the model does not relate the two texts.
- Integers are unbounded: the `long` range of integer tokens is not modelled.
- `XmlDocument`'s own checks are not modelled: insertion rules (such as one document element), XML name validation, the reserved-prefix checks of `AddNamespace`, and the validation in `CreateXmlDeclaration`. `AppendChild` always appends.
- `SetAttributeNode` (line 440) replacing an attribute with the same local name and namespace URI is not modelled. Two attribute names that differ but resolve to the same local name and namespace URI (`@a:x` and `@b:x` with `a` and `b` both bound to one URI) are kept as two attributes; the code keeps only the last. `Dictionary.Add` (line 400) refuses only names that are equal as strings.
- The document is built as a value, threaded through the calls, rather than as shared mutable nodes. `AppendChild` is a value update, so parent links and aliasing are not modelled.
- Writes made before an exception are not modelled. A failing call is described only by its exception, not by the partial output the writer received.
- RoundTrip.WriteJsonRoundTrip: holds only up to regrouping. `SerializeGroupedNodes` writes the children grouped by key, in first-seen order. Siblings of one key that are not contiguous therefore come back moved together (`RoundTrip.SplitSiblingsMove`). Only trees whose same-key siblings are contiguous come back unchanged (`RoundTrip.WriteJsonReadsBack`).
- RoundTrip.WriteJsonReadsBack: stated only for convertible trees, and not for the other trees. Convertible trees have:
  - elements with plain names, in the namespace their prefix is bound to;
  - attributes that are neither namespace declarations nor json:* metadata, with distinct names;
  - at most one "-" child per element;
  - as leaves, only text, CDATA, whitespace and processing instructions.

  The excluded trees are read back differently:
  - a lone comment child makes ReadJson fail (`RoundTrip.LoneCommentReadFails`);
  - two or more comment children are dropped (`RoundTrip.CommentsDropped`);
  - a constructor, written for an element with two or more "-" children, takes in the
    element's later siblings (`DeserializeProperties.ConstructorAbsorbsSibling`);
  - a node marked with json:Array comes back without its marker;
  - a namespace declaration is also added to the namespace manager.

  The round trip is stated for WriteJson's single element, not for a whole document with its declaration.
- Comments are written only under a property name (lines 214-217), so no round trip is claimed for them. A `"#comment"` key in JSON that WriteJson did not write is read as an element name, as the code does.
- An empty property name is read as the exception `EmptyPropertyName`, where the code's `attributeName[0]` (line 395) throws an index exception.
- `reader.Value.ToString()` on a token without a value is read as the exception `NullValue`, where the code throws a null-reference exception.
