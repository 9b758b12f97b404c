/**
  The parser of parson in its own form: a cursor that moves over the text and
  loops that append to the container under construction.
 */
module JsonParserMethods {
  import opened Bytes
  import opened JsonStrings
  import opened JsonValues
  import opened JsonGrammar
  import opened JsonParser
  import Decimal
  import StringScanner

  method ParseValueAt(t: bytes, nesting: nat) returns (r: Parsed)
    ensures r == ParseValue(t, nesting)
    decreases |t|, 1
  {
    if nesting > MAX_NESTING {
      return Err(Malformed);
    }
    var cursor := SkipWhitespaces(t);
    var b := Peek(cursor);
    if b == LBRACE {
      r := ParseObjectAt(cursor, nesting + 1);
    } else if b == LBRACKET {
      r := ParseArrayAt(cursor, nesting + 1);
    } else if b == QUOTE {
      var q := StringScanner.GetQuotedString(cursor);
      r := if q.NoString? then Err(Malformed) else Ok(String(q.text), q.next);
    } else if b == 0x66 {
      r := ParseToken(cursor, FALSE_TEXT, Bool(false));
    } else if b == 0x74 {
      r := ParseToken(cursor, TRUE_TEXT, Bool(true));
    } else if b == MINUS || Decimal.IsDigit(b) {
      r := ParseNumber(cursor);
    } else if b == 0x6E {
      r := ParseToken(cursor, NULL_TEXT, Null);
    } else {
      r := Err(Malformed);
    }
  }

  method ParseArrayAt(t: bytes, nesting: nat) returns (r: Parsed)
    requires Peek(t) == LBRACKET
    ensures r == ParseArray(t, nesting)
    decreases |t|, 0
  {
    var items: seq<Value> := [];
    var cursor := SkipWhitespaces(t[1..]);
    if Peek(cursor) == RBRACKET {
      return Ok(Array(items), cursor[1..]);
    }
    while Peek(cursor) != NUL
      invariant |cursor| < |t|
      invariant ParseArray(t, nesting) == ParseItems(cursor, nesting, items)
      decreases |cursor|
    {
      var item := ParseValueAt(cursor, nesting);
      if item.Err? {
        return item;
      }
      items := items + [item.value];
      var next := SkipWhitespaces(item.next);
      if Peek(next) != COMMA {
        if Peek(next) != RBRACKET {
          return Err(Malformed);
        }
        return Ok(Array(items), next[1..]);
      }
      cursor := SkipWhitespaces(next[1..]);
    }
    return Err(Malformed);
  }

  method ParseObjectAt(t: bytes, nesting: nat) returns (r: Parsed)
    requires Peek(t) == LBRACE
    ensures r == ParseObject(t, nesting)
    decreases |t|, 0
  {
    hide GetQuoted;
    var members: seq<Member> := [];
    var cursor := SkipWhitespaces(t[1..]);
    if Peek(cursor) == RBRACE {
      return Ok(Object(members), cursor[1..]);
    }
    while Peek(cursor) != NUL
      invariant |cursor| < |t|
      invariant ParseObject(t, nesting) == ParseMembers(cursor, nesting, members)
      decreases |cursor|
    {
      var key := StringScanner.GetQuotedString(cursor);
      if key.NoString? || NUL in key.text {
        return Err(Malformed);
      }
      var next := SkipWhitespaces(key.next);
      if Peek(next) != COLON {
        return Err(Malformed);
      }
      var value := ParseValueAt(next[1..], nesting);
      if value.Err? {
        return value;
      }
      if HasKey(members, key.text) {
        return Err(Malformed);
      }
      members := members + [Member(key.text, value.value)];
      next := SkipWhitespaces(value.next);
      if Peek(next) != COMMA {
        if Peek(next) != RBRACE {
          return Err(Malformed);
        }
        return Ok(Object(members), next[1..]);
      }
      cursor := SkipWhitespaces(next[1..]);
    }
    return Err(Malformed);
  }
}
