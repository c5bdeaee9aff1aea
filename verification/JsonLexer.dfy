/** The lexer object: a cursor over a string that ends in a NUL byte. */
module JsonLexer {
  import opened Bytes
  import opened JsonStrings
  import opened JsonUnicode
  import opened JsonValue
  import opened JsonNumbers
  import opened JsonDfa
  import opened JsonScan

  class Lexer {
    const content: Text
    var start: nat
    var marker: Option<nat>
    var cursor: nat

    constructor (s: Text)
      ensures content == s && start == cursor == 0
    {
      content := s;
      start, marker, cursor := 0, None, 0;
    }

    /** Reads one token; no byte behind the terminating NUL is looked at. */
    method Scan() returns (kind: TokenKind)
      requires cursor <= |content|
      modifies this
      ensures Lexeme(kind, start, cursor) == JsonDfa.Scan(content, old(cursor))
      decreases |content| - cursor
    {
      hide Run, Delta;
      marker := None;
      start := cursor;
      StepStart(content, cursor);
      var q, accept: TokenKind := Start, ParseError;
      while true
        invariant Scanning(content, q, cursor, start, marker, accept)
        invariant start == old(cursor)
        invariant Run(content, q, cursor, start, marker, accept) == JsonDfa.Scan(content, old(cursor))
        decreases |content| - cursor
      {
        var c := At(content, cursor);
        match Delta(q, c)
        case Advance(q') =>
          StepAdvance(content, q, cursor, start, marker, accept, q');
          cursor := cursor + 1;
          q := q';
        case Mark(q', k) =>
          StepMark(content, q, cursor, start, marker, accept, q', k);
          cursor := cursor + 1;
          marker := Some(cursor);
          q, accept := q', k;
        case Emit(k) =>
          StepEmit(content, q, cursor, start, marker, accept, k);
          cursor := cursor + 1;
          return k;
        case Stop(k) =>
          StepStop(content, q, cursor, start, marker, accept, k);
          return k;
        case Back =>
          StepBack(content, q, cursor, start, marker, accept);
          cursor := marker.value;
          return accept;
        case Rescan(n) =>
          StepRescan(content, q, cursor, start, marker, accept, n);
          RescanAdvances(q, c, n);
          cursor := cursor + n;
          kind := Scan();
          return;
      }
    }

    /** The value of the string token read last. */
    method GetString() returns (r: JsonResult<Text>)
      requires QuotedLiteral(content, start, cursor)
      ensures r == Unescape(content[start + 1..cursor - 1])
    {
      hide Unescape, FirstChar, StringBody, Prepend, Encode, ToUnicode, HexQuad;
      var result: Text := [];
      var i := start + 1;
      PrependNothing(Unescape(content[i..cursor - 1]));
      while i < cursor - 1
        invariant start + 1 <= i <= cursor - 1
        invariant StringBody(content[i..cursor - 1])
        invariant Unescape(content[start + 1..cursor - 1]) == Prepend(result, Unescape(content[i..cursor - 1]))
      {
        CharacterAt(content, i, cursor - 1);
        UnescapeStep(content, i, cursor - 1, result);
        if content[i] != BACKSLASH {
          result := result + [content[i]];
          i := i + 1;
        } else if content[i + 1] != U {
          result := result + [Unletter(content[i + 1]).value];
          i := i + 2;
        } else {
          var codepoint := HexQuad(content, i + 2);
          if IsHighSurrogate(codepoint) {
            if i + 7 >= |content| || content[i + 6] != BACKSLASH || content[i + 7] != U {
              return Err(InvalidArgument);
            }
            var codepoint2 := HexQuad(content, i + 8);
            var t := ToUnicode(codepoint, codepoint2);
            if t.Err? {
              return Err(if t.error.WrongLowSurrogate? then InvalidArgument else OutOfRange);
            }
            result := result + t.value;
            i := i + 12;
          } else {
            result := result + Encode(codepoint);
            i := i + 6;
          }
        }
      }
      NothingLeft(result, content[i..cursor - 1]);
      return Ok(result);
    }

    /** The value of the number token read last. */
    method GetNumber() returns (r: JsonResult<Json>)
      requires start < cursor <= |content|
      ensures r == NumberValue(content, start, cursor)
    {
      if content[start] != MINUS {
        var number, endptr := Strtoull(content, start).0, Strtoull(content, start).1;
        if endptr == cursor && number.Some? {
          return Ok(Unsigned(number.value));
        }
      } else {
        var number, endptr := Strtoll(content, start).0, Strtoll(content, start).1;
        if endptr == cursor && number.Some? {
          return Ok(Integer(number.value));
        }
      }
      if StrtodEnd(content, start) != cursor {
        return Err(InvalidArgument);
      }
      return Ok(Float(content[start..cursor]));
    }
  }

  lemma PrependNothing(r: JsonResult<Text>)
    ensures Prepend([], r) == r
  {
    if r.Ok? {
      assert [] + r.value == r.value;
    }
  }

  lemma NothingLeft(result: Text, w: Text)
    requires w == []
    ensures StringBody(w) && Prepend(result, Unescape(w)) == Ok(result)
  {
    assert result + [] == result;
  }

  /** Reading the first character of content[i..end) after `result`. */
  lemma UnescapeStep(content: Text, i: nat, end: nat, result: Text)
    requires i < end < |content| && StringBody(content[i..end])
    ensures
      var all := Prepend(result, Unescape(content[i..end]));
      match FirstChar(content[i..end])
      case Err(e) => all == Err(e)
      case Ok((t, n)) =>
        && i + n <= end && StringBody(content[i + n..end])
        && all == Prepend(result + t, Unescape(content[i + n..end]))
  {
    var v := content[i..end];
    hide StringBody, FirstChar;
    match FirstChar(v)
    case Err(e) =>
    case Ok((t, n)) =>
      assert v[n..] == content[i + n..end];
      match Unescape(v[n..])
      case Err(e) =>
      case Ok(u) => assert result + (t + u) == (result + t) + u;
  }

  /**
   * The first character of the literal content[i..end), found by looking at the bytes of
   * `content` from `i` on, up to the quote at `end`.
   */
  lemma CharacterAt(content: Text, i: nat, end: nat)
    requires i < end < |content| && content[end] == QUOTE
    requires StringBody(content[i..end])
    ensures content[i] != BACKSLASH ==> FirstChar(content[i..end]) == Ok(([content[i]], 1))
    ensures content[i] == BACKSLASH ==> i + 1 < end
    ensures content[i] == BACKSLASH && content[i + 1] != U ==>
      Unletter(content[i + 1]).Some? && FirstChar(content[i..end]) == Ok(([Unletter(content[i + 1]).value], 2))
    ensures content[i] == BACKSLASH && content[i + 1] == U ==> UnicodeCharacterAt(content, i, end)
  {
    var v := content[i..end];
    assert v[0] == content[i];
    if content[i] == BACKSLASH {
      assert v[1] == content[i + 1];
      if content[i + 1] == U {
        UEscapeCharacter(content, i, end);
      }
    }
  }

  /** What a `u` escape at `i` contributes, and what must follow it. */
  ghost predicate UnicodeCharacterAt(content: Text, i: nat, end: nat)
    requires i < end < |content| && StringBody(content[i..end])
  {
    && i + 6 <= end && (forall k :: i + 2 <= k < i + 6 ==> IsHexDigit(content[k]))
    && var c := HexQuad(content, i + 2);
    && (!IsHighSurrogate(c) ==> FirstChar(content[i..end]) == Ok((Encode(c), 6)))
    && (IsHighSurrogate(c) ==>
          if i + 7 >= |content| || content[i + 6] != BACKSLASH || content[i + 7] != U then
            FirstChar(content[i..end]) == Err(InvalidArgument)
          else
            && i + 12 <= end && (forall k :: i + 8 <= k < i + 12 ==> IsHexDigit(content[k]))
            && FirstChar(content[i..end]) ==
               match Lift(ToUnicode(c, HexQuad(content, i + 8)))
               case Ok(t) => Ok((t, 12))
               case Err(e) => Err(e))
  }

  lemma UEscapeCharacter(content: Text, i: nat, end: nat)
    requires i + 1 < end < |content| && content[end] == QUOTE
    requires StringBody(content[i..end])
    requires content[i] == BACKSLASH && content[i + 1] == U
    ensures UnicodeCharacterAt(content, i, end)
  {
    var v := content[i..end];
    assert v[0] == content[i] && v[1] == content[i + 1];
    assert UEscapeAt(v, 1) && StringBody(v[6..]);
    assert forall k :: i + 2 <= k < i + 6 ==> content[k] == v[k - i];
    assert HexQuad(v, 2) == HexQuad(content, i + 2);
    var u := v[6..];
    if u != [] && u[0] == BACKSLASH {
      assert u[0] == content[i + 6] && u[1] == content[i + 7];
      if u[1] == U {
        assert UEscapeAt(u, 1);
        assert forall k :: i + 8 <= k < i + 12 ==> content[k] == u[k - i - 6] == v[k - i];
        assert HexQuad(v, 8) == HexQuad(content, i + 8);
      }
    } else {
      assert content[i + 6] != BACKSLASH;
    }
  }

  /** A rescan happens only after a byte has been consumed. */
  lemma RescanAdvances(q: State, c: Byte, n: nat)
    requires Delta(q, c) == Rescan(n)
    ensures !q.Start?
  {
  }
}
