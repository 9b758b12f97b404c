/**
  The recursive-descent parser of parson as functions of the text that remains.
  The loops over members and items carry the part of the container built so far.
 */
module JsonParser {
  import opened Bytes
  import opened JsonStrings
  import opened JsonValues
  import opened JsonGrammar
  import Decimal

  /** Why no value is returned: the text is malformed, or it holds a number
      outside the integers this model gives a meaning to. */
  datatype Failure = Malformed | UnmodelledNumber

  datatype Parsed = Ok(value: Value, next: bytes) | Err(why: Failure)

  predicate StartsWith(t: bytes, token: bytes) {
    |token| <= |t| && t[..|token|] == token
  }

  /** Would strtod read past the digits it has seen? Behind a lone zero also "0x". */
  predicate Continues(digits: bytes, b: byte) {
    b == DOT || b == 0x65 || b == 0x45 || (digits == [Decimal.ZERO] && (b == 0x78 || b == 0x58))
  }

  /** A fraction without digits in front. */
  predicate BareFraction(t: bytes) {
    |t| > 1 && t[0] == DOT && Decimal.IsDigit(t[1])
  }

  /** "inf" or "nan" in any case, which strtod converts to no finite number. */
  predicate NotFinite(t: bytes) {
    |t| >= 3 &&
    (|| (LowerCase(t[0]) == 0x69 && LowerCase(t[1]) == 0x6E && LowerCase(t[2]) == 0x66)
     || (LowerCase(t[0]) == 0x6E && LowerCase(t[1]) == 0x61 && LowerCase(t[2]) == 0x6E))
  }

  /** `parse_number_value` with `is_decimal`. A minus sign that no number follows
      converts nothing, which strtod reports as 0 with the cursor left in place;
      infinities and NaN are refused by `json_value_init_number`. */
  function ParseNumber(t: bytes): (r: Parsed)
    requires |t| > 0
    ensures r.Ok? ==> |r.next| <= |t|
  {
    var negative := t[0] == MINUS;
    var body := if negative then t[1..] else t;
    var k := Decimal.DigitRun(body);
    var digits, next := body[..k], body[k..];
    if k == 0 then
      if BareFraction(body) then Err(UnmodelledNumber)
      else if NotFinite(body) then Err(Malformed)
      else Ok(Number(0), t)
    else if |next| > 0 && Continues(digits, next[0]) then Err(UnmodelledNumber)
    else if k > 1 && digits[0] == Decimal.ZERO then Err(Malformed)
    else
      var n: int := Decimal.ValueOf(digits);
      if n > MAX_INTEGER || (negative && n == 0) then Err(UnmodelledNumber)
      else Ok(Number(if negative then -n else n), next)
  }

  /** `parse_boolean_value` and `parse_null_value`. */
  function ParseToken(t: bytes, token: bytes, v: Value): (r: Parsed)
    ensures r.Ok? ==> |r.next| <= |t|
  {
    if StartsWith(t, token) then Ok(v, t[|token|..]) else Err(Malformed)
  }

  /** `parse_value`. */
  function ParseValue(t: bytes, nesting: nat): (r: Parsed)
    ensures r.Ok? ==> |r.next| <= |t|
    decreases |t|, 1
  {
    if nesting > MAX_NESTING then Err(Malformed)
    else
      var u := SkipSpace(t);
      var b := Peek(u);
      if b == LBRACE then ParseObject(u, nesting + 1)
      else if b == LBRACKET then ParseArray(u, nesting + 1)
      else if b == QUOTE then
        match GetQuoted(u)
        case NoString => Err(Malformed)
        case Quoted(s, next) => Ok(String(s), next)
      else if b == 0x66 then ParseToken(u, FALSE_TEXT, Bool(false))
      else if b == 0x74 then ParseToken(u, TRUE_TEXT, Bool(true))
      else if b == MINUS || Decimal.IsDigit(b) then ParseNumber(u)
      else if b == 0x6E then ParseToken(u, NULL_TEXT, Null)
      else Err(Malformed)
  }

  /** `parse_array_value`, at the opening bracket. */
  function ParseArray(u: bytes, nesting: nat): (r: Parsed)
    requires Peek(u) == LBRACKET
    ensures r.Ok? ==> |r.next| < |u|
    decreases |u|, 0
  {
    var t := SkipSpace(u[1..]);
    if Peek(t) == RBRACKET then Ok(Array([]), t[1..]) else ParseItems(t, nesting, [])
  }

  /** The loop of `parse_array_value`, with the items read so far. */
  function ParseItems(t: bytes, nesting: nat, acc: seq<Value>): (r: Parsed)
    ensures r.Ok? ==> |r.next| < |t|
    decreases |t|, 2
  {
    if Peek(t) == NUL then Err(Malformed)
    else
      match ParseValue(t, nesting)
      case Err(e) => Err(e)
      case Ok(v, next) =>
        var w := SkipSpace(next);
        if Peek(w) == COMMA then ParseItems(SkipSpace(w[1..]), nesting, acc + [v])
        else if Peek(w) == RBRACKET then Ok(Array(acc + [v]), w[1..])
        else Err(Malformed)
  }

  /** `parse_object_value`, at the opening brace. */
  function ParseObject(u: bytes, nesting: nat): (r: Parsed)
    requires Peek(u) == LBRACE
    ensures r.Ok? ==> |r.next| < |u|
    decreases |u|, 0
  {
    var t := SkipSpace(u[1..]);
    if Peek(t) == RBRACE then Ok(Object([]), t[1..]) else ParseMembers(t, nesting, [])
  }

  /** The loop of `parse_object_value`, with the members added so far. A name with
      an embedded NUL is refused, and `json_object_add` refuses a repeated one. */
  function ParseMembers(t: bytes, nesting: nat, acc: seq<Member>): (r: Parsed)
    ensures r.Ok? ==> |r.next| < |t|
    decreases |t|, 2
  {
    match GetQuoted(t)
    case NoString => Err(Malformed)
    case Quoted(key, behind) =>
      var colon := SkipSpace(behind);
      if NUL in key || Peek(colon) != COLON then Err(Malformed)
      else
        match ParseValue(colon[1..], nesting)
        case Err(e) => Err(e)
        case Ok(v, next) =>
          if HasKey(acc, key) then Err(Malformed)
          else
            var w := SkipSpace(next);
            if Peek(w) == COMMA then ParseMembers(SkipSpace(w[1..]), nesting, acc + [Member(key, v)])
            else if Peek(w) == RBRACE then Ok(Object(acc + [Member(key, v)]), w[1..])
            else Err(Malformed)
  }

  /** `json_parse_string`: a byte order mark is skipped, text behind the value is ignored. */
  function ParseText(t: bytes): (r: Parsed)
  {
    if StartsWith(t, [0xEF, 0xBB, 0xBF]) then ParseValue(t[3..], 0) else ParseValue(t, 0)
  }

  /** A minus sign without a digit behind it. */
  predicate BareMinus(t: bytes) {
    var u := SkipSpace(t);
    Peek(u) == MINUS && !Decimal.IsDigit(Peek(u[1..]))
  }
}
