/**
 * The JsonReader the reverse pass pulls tokens from: a fixed token stream and the position
 * of the current token. Past the last token the reader has no current token (NoToken) and
 * Read returns false.
 */
module JsonReading {
  import opened JsonTokens

  /** reader.TokenType with its value: the token at pos, or NoToken past the end. */
  function Current(tokens: seq<Token>, pos: nat): (t: Token)
    ensures pos < |tokens| ==> t == tokens[pos]
    ensures pos >= |tokens| ==> t == NoToken
  {
    if pos < |tokens| then tokens[pos] else NoToken
  }

  /** The position after reader.Read(): one token further, never past the end. */
  function Next(tokens: seq<Token>, pos: nat): (p: nat)
    requires pos <= |tokens|
    ensures p <= |tokens|
    ensures pos < |tokens| ==> p == pos + 1
    ensures pos == |tokens| ==> p == pos
  {
    if pos < |tokens| then pos + 1 else pos
  }

  class JsonReader {
    const tokens: seq<Token>
    var pos: nat

    predicate Valid()
      reads this
    {
      pos <= |tokens|
    }

    /** A reader positioned on the first token of tokens. */
    constructor (tokens: seq<Token>)
      ensures this.tokens == tokens && pos == 0 && Valid()
    {
      this.tokens := tokens;
      pos := 0;
    }

    function TokenType(): (t: Token)
      reads this
    {
      Current(tokens, pos)
    }

    /** Advances to the next token; false when there is none. */
    method Read() returns (more: bool)
      requires Valid()
      modifies this
      ensures Valid()
      ensures pos == Next(tokens, old(pos))
      ensures more <==> pos < |tokens|
    {
      if pos < |tokens| {
        pos := pos + 1;
      }
      more := pos < |tokens|;
    }
  }
}
