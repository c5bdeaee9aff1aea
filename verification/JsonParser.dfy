/** The recursive-descent parser over the lexer, and `basic_json::parse` for a string. */
module JsonParser {
  import opened Bytes
  import opened JsonStrings
  import opened JsonValue
  import opened JsonNumbers
  import opened JsonDfa
  import opened JsonScan
  import opened JsonLexer
  import opened JsonGrammar

  class Parser {
    const lexer: Lexer
    var lastToken: TokenKind

    /** The last token: the range between the lexer's start and its cursor. */
    ghost function Last(): Lexeme
      reads this, lexer
    {
      Lexeme(lastToken, lexer.start, lexer.cursor)
    }

    ghost predicate Valid()
      reads this, lexer
    {
      IsToken(lexer.content, Last())
    }

    /** The last token and all that are still to be scanned. */
    ghost function Remaining(): (t: seq<Token>)
      reads this, lexer
      requires Valid()
      ensures t != [] && t[0] == TokenOf(lexer.content, Last())
    {
      From(lexer.content, Last())
    }

    constructor (s: Text)
      ensures Valid() && fresh(lexer) && lexer.content == s
      ensures Remaining() == Lex(s, 0)
    {
      lexer := new Lexer(s);
      lastToken := ParseError;
      new;
      GetToken();
    }

    method GetToken()
      requires lexer.cursor <= |lexer.content|
      modifies this, lexer
      ensures Valid() && lexer.cursor > old(lexer.cursor)
      ensures Remaining() == Lex(lexer.content, old(lexer.cursor))
    {
      ghost var p := lexer.cursor;
      lastToken := lexer.Scan();
      hide Scan, From;
      ScannedIsToken(lexer.content, p);
    }

    /** Reads the next token when the last one is an ordinary token. */
    method Next()
      requires Valid() && lastToken != EndOfInput && lastToken != ParseError
      modifies this, lexer
      ensures Valid() && lexer.cursor > old(lexer.cursor)
      ensures Remaining() == old(Remaining())[1..]
    {
      GetToken();
    }

    /** `parse_internal` without a callback: one value, or the first error. */
    method ParseInternal() returns (r: JsonResult<Json>)
      requires Valid()
      modifies this, lexer
      ensures r.Ok? ==> Valid() && lexer.cursor > old(lexer.cursor)
      ensures
        match ParseValue(old(Remaining()))
        case Err(e) => r == Err(e)
        case Ok((v, rest)) => r == Ok(v) && Remaining() == rest
      decreases |lexer.content| + 1 - lexer.cursor, 1
    {
      hide Lex, From, Remaining, QuotedLiteral, Unescape, NumberValue, ParseItems, ParsePairs;
      match lastToken
      case BeginObject =>
        Next();
        if lastToken == EndObject {
          Next();
          return Ok(Object([]));
        }
        if lastToken == ValueSeparator {
          return Err(InvalidArgument);
        }
        r := ParseMembers();
      case BeginArray =>
        Next();
        if lastToken == EndArray {
          Next();
          return Ok(Array([]));
        }
        if lastToken == ValueSeparator {
          return Err(InvalidArgument);
        }
        r := ParseElements();
      case LiteralNull =>
        Next();
        r := Ok(Null);
      case LiteralTrue =>
        Next();
        r := Ok(Boolean(true));
      case LiteralFalse =>
        Next();
        r := Ok(Boolean(false));
      case ValueString =>
        var s := lexer.GetString();
        if s.Err? {
          return Err(s.error);
        }
        Next();
        r := Ok(String(s.value));
      case ValueNumber =>
        r := lexer.GetNumber();
        if r.Err? {
          return;
        }
        Next();
      case _ =>
        r := Err(InvalidArgument);
    }

    /** The values of an array and its closing bracket: the do-while loop of the array case. */
    method ParseElements() returns (r: JsonResult<Json>)
      requires Valid() && lastToken != ValueSeparator
      modifies this, lexer
      ensures r.Ok? ==> Valid() && lexer.cursor > old(lexer.cursor)
      ensures
        match ParseItems(old(Remaining()), [])
        case Err(e) => r == Err(e)
        case Ok((v, rest)) => r == Ok(v) && Remaining() == rest
      decreases |lexer.content| + 1 - lexer.cursor, 2
    {
      hide Lex, From, Remaining, QuotedLiteral, Unescape, NumberValue, ParseValue;
      var result: seq<Json> := [];
      while true
        invariant Valid() && lexer.cursor >= old(lexer.cursor)
        invariant lastToken != ValueSeparator || lexer.cursor > old(lexer.cursor)
        invariant ParseItems(Remaining(), result) == ParseItems(old(Remaining()), [])
        decreases |lexer.content| + 1 - lexer.cursor
      {
        if lastToken == ValueSeparator {
          Next();
        }
        var value := ParseInternal();
        if value.Err? {
          return value;
        }
        result := result + [value.value];
        if lastToken != ValueSeparator {
          if lastToken != EndArray {
            return Err(InvalidArgument);
          }
          Next();
          return Ok(Array(result));
        }
      }
    }

    /** The members of an object and its closing brace: the do-while loop of the object case. */
    method ParseMembers() returns (r: JsonResult<Json>)
      requires Valid() && lastToken != ValueSeparator
      modifies this, lexer
      ensures r.Ok? ==> Valid() && lexer.cursor > old(lexer.cursor)
      ensures
        match ParsePairs(old(Remaining()), [])
        case Err(e) => r == Err(e)
        case Ok((v, rest)) => r == Ok(v) && Remaining() == rest
      decreases |lexer.content| + 1 - lexer.cursor, 3
    {
      hide Lex, From, Remaining, QuotedLiteral, Unescape, NumberValue, ParseMember, Insert;
      var result: seq<Member> := [];
      while true
        invariant Valid() && lexer.cursor >= old(lexer.cursor)
        invariant lastToken != ValueSeparator || lexer.cursor > old(lexer.cursor)
        invariant ParsePairs(Remaining(), result) == ParsePairs(old(Remaining()), [])
        decreases |lexer.content| + 1 - lexer.cursor
      {
        if lastToken == ValueSeparator {
          Next();
        }
        var m := ParsePair();
        if m.Err? {
          return Err(m.error);
        }
        result := Insert(result, m.value.key, m.value.value);
        if lastToken != ValueSeparator {
          if lastToken != EndObject {
            return Err(InvalidArgument);
          }
          Next();
          return Ok(Object(result));
        }
      }
    }

    /** The body of that loop: a key, a colon and a value. */
    method ParsePair() returns (r: JsonResult<Member>)
      requires Valid()
      modifies this, lexer
      ensures r.Ok? ==> Valid() && lexer.cursor > old(lexer.cursor)
      ensures
        match ParseMember(old(Remaining()))
        case Err(e) => r == Err(e)
        case Ok((m, rest)) => r == Ok(m) && Remaining() == rest
      decreases |lexer.content| + 1 - lexer.cursor, 2
    {
      hide Lex, From, Remaining, Unescape, NumberValue, ParseValue;
      if lastToken != ValueString {
        return Err(InvalidArgument);
      }
      var key := lexer.GetString();
      if key.Err? {
        return Err(key.error);
      }
      Next();
      if lastToken != NameSeparator {
        return Err(InvalidArgument);
      }
      Next();
      var value := ParseInternal();
      if value.Err? {
        return Err(value.error);
      }
      return Ok(Member(key.value, value.value));
    }

    /** One value and then the end of the input. */
    method Parse() returns (r: JsonResult<Json>)
      requires Valid()
      modifies this, lexer
      ensures r == ParseText(old(Remaining()))
    {
      r := ParseInternal();
      if r.Ok? && lastToken != EndOfInput {
        r := Err(InvalidArgument);
      }
    }
  }

  /** `basic_json::parse(s)`. */
  method ParseString(s: Text) returns (r: JsonResult<Json>)
    ensures r == ParseText(Lex(s, 0))
  {
    var parser := new Parser(s);
    r := parser.Parse();
  }
}
