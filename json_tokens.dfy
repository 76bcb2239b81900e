/**
 * The JSON token stream that JsonReader yields and JsonWriter consumes, with the two
 * renderings of a token's value the converter uses, and the nesting discipline a
 * JsonWriter enforces on the tokens written to it.
 */
module JsonTokens {
  import opened Results
  import opened ConvertErrors
  import XmlConvert

  /** A JsonToken with its value. NoToken is JsonToken.None: the reader has no current token. */
  datatype Token =
    | NoToken
    | StartObject
    | EndObject
    | StartArray
    | EndArray
    | StartConstructor(name: string)
    | EndConstructor
    | PropertyName(name: string)
    | CommentToken(text: string)
    | String(text: string)
    | Integer(number: int)
    | Float(valueText: string, xmlText: string)  // the double as Double.ToString() and as XmlConvert.ToString() render it
    | Boolean(flag: bool)
    | Date(valueText: string, xmlText: string)   // the DateTime as DateTime.ToString() and as XmlConvert.ToString() render it
    | Null

  /** The tokens whose reader.Value is not null. */
  predicate HasValue(t: Token) {
    t.StartConstructor? || t.PropertyName? || t.CommentToken? || t.String? || t.Integer?
    || t.Float? || t.Boolean? || t.Date?
  }

  /**
   * reader.Value.ToString(): names and strings as they are, integers in decimal,
   * booleans as Boolean.ToString() writes them ("True", "False"), doubles and dates in
   * their culture-dependent ToString() rendering; a token without a value raises a
   * NullReferenceException.
   */
  function ValueText(t: Token): (r: Result<string, ConvertError>)
    ensures r.Success? <==> HasValue(t)
    ensures r.Failure? ==> r.error == NullValue
    ensures t.String? || t.PropertyName? || t.StartConstructor? ==> r.Success? && |r.value| == |if t.String? then t.text else t.name|
  {
    match t
    case StartConstructor(name) => Success(name)
    case PropertyName(name) => Success(name)
    case CommentToken(text) => Success(text)
    case String(text) => Success(text)
    case Integer(number) => Success(XmlConvert.FromInt(number))
    case Float(valueText, _) => Success(valueText)
    case Boolean(flag) => Success(if flag then "True" else "False")
    case Date(valueText, _) => Success(valueText)
    case _ => Failure(NullValue)
  }

  /** The tokens that make an element with a single text child. */
  predicate IsScalar(t: Token) {
    t.String? || t.Integer? || t.Float? || t.Boolean? || t.Date?
  }

  /**
   * The text XmlConvert.ToString gives a scalar token's value: for doubles and dates this
   * is the round-trip rendering ("INF", ISO 8601), not the one ValueText gives.
   */
  function XmlText(t: Token): string
    requires IsScalar(t)
  {
    match t
    case String(text) => text
    case Integer(number) => XmlConvert.FromInt(number)
    case Float(_, xmlText) => xmlText
    case Boolean(flag) => XmlConvert.FromBoolean(flag)
    case Date(_, xmlText) => xmlText
  }

  /** An open container of a JsonWriter; an object remembers whether a property name awaits its value. */
  datatype Frame = ObjectFrame(awaitingValue: bool) | ArrayFrame | ConstructorFrame

  /** Where a value may start: at top level, after a property name, or inside an array or constructor. */
  function BeginValue(stack: seq<Frame>): Option<seq<Frame>> {
    if stack == [] then Some(stack)
    else
      match stack[|stack| - 1]
      case ObjectFrame(awaiting) =>
        if awaiting then Some(stack[..|stack| - 1] + [ObjectFrame(false)]) else None
      case _ => Some(stack)
  }

  function CloseFrame(stack: seq<Frame>, f: Frame): Option<seq<Frame>> {
    if stack != [] && stack[|stack| - 1] == f then Some(stack[..|stack| - 1]) else None
  }

  /** One token written to a JsonWriter whose open containers are stack; None when it would throw. */
  function WriterStep(stack: seq<Frame>, t: Token): Option<seq<Frame>> {
    match t
    case NoToken => None
    case PropertyName(_) =>
      if stack != [] && stack[|stack| - 1] == ObjectFrame(false)
      then Some(stack[..|stack| - 1] + [ObjectFrame(true)]) else None
    case StartObject =>
      var s :- BeginValue(stack); Some(s + [ObjectFrame(false)])
    case StartArray =>
      var s :- BeginValue(stack); Some(s + [ArrayFrame])
    case StartConstructor(_) =>
      var s :- BeginValue(stack); Some(s + [ConstructorFrame])
    case EndObject => CloseFrame(stack, ObjectFrame(false))
    case EndArray => CloseFrame(stack, ArrayFrame)
    case EndConstructor => CloseFrame(stack, ConstructorFrame)
    case CommentToken(_) => Some(stack)
    case _ => BeginValue(stack)
  }

  /** A sequence of tokens written one after the other. */
  function WriterRun(stack: seq<Frame>, ts: seq<Token>): Option<seq<Frame>>
    decreases |ts|
  {
    if ts == [] then Some(stack)
    else
      match WriterStep(stack, ts[0])
      case None => None
      case Some(s) => WriterRun(s, ts[1..])
  }

  /** Writing a + b is writing a, then writing b from where a left off. */
  lemma {:induction false} WriterRunAppend(stack: seq<Frame>, a: seq<Token>, b: seq<Token>)
    ensures WriterRun(stack, a + b) ==
      match WriterRun(stack, a)
      case None => None
      case Some(s) => WriterRun(s, b)
    decreases |a|
  {
    if a == [] {
      assert a + b == b;
    } else {
      assert (a + b)[0] == a[0];
      assert (a + b)[1..] == a[1..] + b;
      match WriterStep(stack, a[0])
      case None =>
      case Some(s) => WriterRunAppend(s, a[1..], b);
    }
  }

  /** Inside an object, between properties. */
  predicate InProperties(stack: seq<Frame>) {
    stack != [] && stack[|stack| - 1] == ObjectFrame(false)
  }

  /** Inside an array or a constructor, between items. */
  predicate InItems(stack: seq<Frame>) {
    stack != [] && (stack[|stack| - 1] == ArrayFrame || stack[|stack| - 1] == ConstructorFrame)
  }
}

/** The JsonWriter the forward pass writes to, as the token stream written so far. */
module JsonWriting {
  import opened JsonTokens

  class JsonWriter {
    var tokens: seq<Token>

    constructor ()
      ensures tokens == []
    {
      tokens := [];
    }

    method Write(t: Token)
      modifies this
      ensures tokens == old(tokens) + [t]
    {
      tokens := tokens + [t];
    }
  }
}
