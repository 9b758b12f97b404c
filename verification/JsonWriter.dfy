/**
  The two-pass serializer of parson: the same code measures with no buffer and
  then writes into one. An Output is the pair of variables the source threads
  through its calls, the buffer (or NULL) and the number of bytes written.
 */
module JsonWriter {
  import opened Bytes
  import opened JsonValues
  import opened JsonGrammar
  import opened JsonText
  import Decimal

  const NUM_BUF_SIZE: nat := 64

  class Output {
    const buf: array?<byte>
    var written: nat
    ghost var text: bytes

    /** What has been written so far is text; there is room for the terminator. */
    ghost predicate Valid()
      reads this, buf
    {
      |text| == written && (buf != null ==> written < buf.Length && buf[..written] == text)
    }

    /** Room for n more bytes and a terminator, if there is a buffer at all. */
    ghost predicate Room(n: nat)
      reads this
    {
      buf != null ==> written + n < buf.Length
    }

    ghost predicate Terminated()
      reads this, buf
      requires Valid()
    {
      buf != null ==> buf[written] == NUL
    }

    constructor (b: array?<byte>)
      requires b != null ==> b.Length > 0
      ensures buf == b && written == 0 && text == [] && Valid()
    {
      buf, written, text := b, 0, [];
    }

    /** Bytes behind the terminator of what has been written are left alone. */
    twostate predicate KeepsRest()
      reads this, buf
    {
      buf != null ==> forall i | written < i < buf.Length :: buf[i] == old(buf[i])
    }

    /** `append_string`: `sprintf` stores the string and its terminator. */
    method AppendString(s: bytes)
      requires Valid() && Room(|s|)
      modifies this, buf
      ensures Valid() && Terminated() && KeepsRest()
      ensures text == old(text) + s
    {
      if buf != null {
        for i := 0 to |s|
          invariant buf[..written + i] == old(text) + s[..i]
          invariant forall j | written + |s| <= j < buf.Length :: buf[j] == old(buf[j])
          modifies buf
        {
          buf[written + i] := s[i];
          assert buf[..written + i + 1] == buf[..written + i] + [s[i]];
          assert s[..i + 1] == s[..i] + [s[i]];
        }
        buf[written + |s|] := NUL;
        assert s[..|s|] == s;
        assert buf[..written + |s|] == old(text) + s;
      }
      written := written + |s|;
      text := text + s;
    }

    /** The default branch of `json_serialize_string` stores a byte and no terminator. */
    method AppendByte(b: byte)
      requires Valid() && Room(1)
      modifies this, buf
      ensures Valid() && KeepsRest()
      ensures text == old(text) + [b]
    {
      if buf != null {
        buf[written] := b;
        assert buf[..written + 1] == buf[..written] + [b];
      }
      written := written + 1;
      text := text + [b];
    }

    /** `append_indent`. */
    method AppendIndent(level: nat)
      requires Valid() && Room(|Indent(level)|)
      modifies this, buf
      ensures Valid() && KeepsRest()
      ensures text == old(text) + Indent(level)
      ensures old(Terminated()) ==> Terminated()
    {
      for i := 0 to level
        invariant Valid() && KeepsRest() && Room(|Indent(level - i)|)
        invariant text + Indent(level - i) == old(text) + Indent(level)
        invariant old(Terminated()) ==> Terminated()
      {
        Assoc(text, FOUR_SPACES, Indent(level - i - 1));
        AppendString(FOUR_SPACES);
      }
    }

    /** `json_serialize_string`. */
    method AppendQuoted(s: bytes, slashes: bool)
      requires Valid() && Room(|StringText(s, slashes)|)
      modifies this, buf
      ensures Valid() && Terminated() && KeepsRest()
      ensures text == old(text) + StringText(s, slashes)
    {
      hide EscapeText;
      ghost var start := text;
      AppendString([QUOTE]);
      for i := 0 to |s|
        invariant Valid() && KeepsRest() && Room(|EscapeAll(s[i..], slashes)| + 1)
        invariant text + EscapeAll(s[i..], slashes) == start + [QUOTE] + EscapeAll(s, slashes)
      {
        var c := s[i];
        assert s[i..][1..] == s[i + 1..];
        Assoc(text, EscapeText(c, slashes), EscapeAll(s[i + 1..], slashes));
        if c == QUOTE || c == BACKSLASH || c == SLASH || c < 0x20 {
          AppendString(EscapeText(c, slashes));
        } else {
          PlainByte(c, slashes);
          AppendByte(c);
        }
      }
      AppendString([QUOTE]);
      Assoc(start, [QUOTE] + EscapeAll(s, slashes), [QUOTE]);
      Assoc(start, [QUOTE], EscapeAll(s, slashes));
    }

    // The value being serialized

    /** What the callers guarantee: the measuring pass has a number buffer and no
        output buffer, the writing pass the reverse. */
    ghost predicate Ready(numBuf: array?<byte>, n: nat)
      reads this, buf
    {
      && Valid() && Room(n)
      && (buf == null <==> numBuf != null)
      && (numBuf != null ==> numBuf.Length == NUM_BUF_SIZE)
    }

    /** The state after s has been appended. */
    twostate predicate Appended(s: bytes)
      reads this, buf
    {
      Valid() && KeepsRest() && text == old(text) + s
    }

    /** The JSONNumber case: `sprintf` into the output or, when measuring, into numBuf. */
    method AppendNumber(n: int, numBuf: array?<byte>)
      requires -MAX_INTEGER <= n <= MAX_INTEGER
      requires Ready(numBuf, |Decimal.IntText(n)|)
      modifies this, buf, numBuf
      ensures Appended(Decimal.IntText(n)) && Terminated()
    {
      var digits := Decimal.IntText(n);
      if buf != null {
        AppendString(digits);
      } else {
        NumberFits(n);
        for i := 0 to |digits|
          invariant Valid()
          modifies numBuf
        {
          numBuf[i] := digits[i];
        }
        numBuf[|digits|] := NUL;
        written := written + |digits|;
        text := text + digits;
      }
    }

    /** `json_serialize_to_buffer_r`: appends exactly the text of the value. */
    method AppendValue(v: Value, level: nat, st: Style, numBuf: array?<byte>)
      requires WellFormed(v)
      requires Ready(numBuf, |Text(v, level, st)|)
      modifies this, buf, numBuf
      ensures Appended(Text(v, level, st)) && Terminated()
      decreases v, 1
    {
      match v
      case Null => AppendString(NULL_TEXT);
      case Bool(b) =>
        if b {
          AppendString(TRUE_TEXT);
        } else {
          AppendString(FALSE_TEXT);
        }
      case Number(n) => AppendNumber(n, numBuf);
      case String(s) => AppendQuoted(s, st.slashes);
      case Array(xs) => AppendArray(xs, level, st, numBuf);
      case Object(ms) => AppendObject(ms, level, st, numBuf);
    }

    method AppendBreak(st: Style)
      requires Valid() && Room(|Nl(st)|)
      modifies this, buf
      ensures Appended(Nl(st)) && (old(Terminated()) ==> Terminated())
    {
      if st.pretty {
        AppendString([LF]);
      }
    }

    method AppendInd(level: nat, st: Style)
      requires Valid() && Room(|Ind(level, st)|)
      modifies this, buf
      ensures Appended(Ind(level, st)) && (old(Terminated()) ==> Terminated())
    {
      if st.pretty {
        AppendIndent(level);
      }
    }

    /** One turn of the JSONArray loop. */
    method AppendItem(x: Value, more: bool, level: nat, st: Style, numBuf: array?<byte>)
      requires WellFormed(x)
      requires Ready(numBuf, |ItemText(x, more, level, st)|)
      modifies this, buf, numBuf
      ensures Appended(ItemText(x, more, level, st)) && Terminated()
      decreases x, 2
    {
      ghost var start, value := text, Text(x, level + 1, st);
      AppendInd(level + 1, st);
      AppendValue(x, level + 1, st, numBuf);
      if more {
        AppendString([COMMA]);
      }
      AppendBreak(st);
      Regroup4(start, Ind(level + 1, st), value, Sep(more), Nl(st));
    }

    /** The JSONArray loop. */
    method AppendItems(xs: seq<Value>, level: nat, st: Style, numBuf: array?<byte>)
      requires WellFormed(Array(xs))
      requires Ready(numBuf, |ItemsText(xs, level, st)|) && Terminated()
      modifies this, buf, numBuf
      ensures Appended(ItemsText(xs, level, st)) && Terminated()
      decreases xs, 0
    {
      hide Text;
      hide ItemText;
      for i := 0 to |xs|
        invariant Ready(numBuf, |ItemsText(xs[i..], level, st)|)
        invariant KeepsRest() && Terminated()
        invariant text + ItemsText(xs[i..], level, st) == old(text) + ItemsText(xs, level, st)
      {
        assert xs[i..][1..] == xs[i + 1..];
        Assoc(text, ItemText(xs[i], i < |xs| - 1, level, st), ItemsText(xs[i + 1..], level, st));
        AppendItem(xs[i], i < |xs| - 1, level, st, numBuf);
      }
    }

    method AppendArray(xs: seq<Value>, level: nat, st: Style, numBuf: array?<byte>)
      requires WellFormed(Array(xs))
      requires Ready(numBuf, |Text(Array(xs), level, st)|)
      modifies this, buf, numBuf
      ensures Appended(Text(Array(xs), level, st)) && Terminated()
      decreases xs, 1
    {
      hide ItemsText;
      AppendString([LBRACKET]);
      if |xs| > 0 {
        AppendBreak(st);
        AppendItems(xs, level, st, numBuf);
        AppendInd(level, st);
        AppendString([RBRACKET]);
        Regroup5(old(text), [LBRACKET], Nl(st), ItemsText(xs, level, st), Ind(level, st), [RBRACKET]);
      } else {
        AppendString([RBRACKET]);
        Assoc(old(text), [LBRACKET], [RBRACKET]);
        assert [] + [RBRACKET] == [RBRACKET];
      }
    }

    /** A name and the colon behind it. */
    method AppendName(key: bytes, level: nat, st: Style)
      requires Valid() && Room(|Ind(level + 1, st)| + |StringText(key, st.slashes)| + |AfterColon(st)|)
      modifies this, buf
      ensures Valid() && KeepsRest()
      ensures text == old(text) + Ind(level + 1, st) + StringText(key, st.slashes) + AfterColon(st)
    {
      hide StringText;
      AppendInd(level + 1, st);
      AppendQuoted(key, st.slashes);
      ghost var named := text;
      AppendString([COLON]);
      if st.pretty {
        AppendString([SPACE]);
        Assoc(named, [COLON], [SPACE]);
      }
    }

    /** One turn of the JSONObject loop. */
    method AppendMember(m: Member, more: bool, level: nat, st: Style, numBuf: array?<byte>)
      requires WellFormed(m.value)
      requires Ready(numBuf, |MemberText(m, more, level, st)|)
      modifies this, buf, numBuf
      ensures Appended(MemberText(m, more, level, st)) && Terminated()
      decreases m, 2
    {
      hide StringText;
      hide Text;
      AppendName(m.key, level, st);
      AppendValue(m.value, level + 1, st, numBuf);
      if more {
        AppendString([COMMA]);
      }
      AppendBreak(st);
      Regroup6(old(text), Ind(level + 1, st), StringText(m.key, st.slashes), AfterColon(st),
               Text(m.value, level + 1, st), Sep(more), Nl(st));
    }

    /** The JSONObject loop: each value is looked up by the name of its slot. */
    method AppendMembers(ms: seq<Member>, level: nat, st: Style, numBuf: array?<byte>)
      requires WellFormed(Object(ms))
      requires Ready(numBuf, |MembersText(ms, level, st)|) && Terminated()
      modifies this, buf, numBuf
      ensures Appended(MembersText(ms, level, st)) && Terminated()
      decreases ms, 0
    {
      hide Text;
      hide MemberText;
      for i := 0 to |ms|
        invariant Ready(numBuf, |MembersText(ms[i..], level, st)|)
        invariant KeepsRest() && Terminated()
        invariant text + MembersText(ms[i..], level, st) == old(text) + MembersText(ms, level, st)
      {
        assert ms[i..][1..] == ms[i + 1..];
        Assoc(text, MemberText(ms[i], i < |ms| - 1, level, st), MembersText(ms[i + 1..], level, st));
        LookupSlot(ms, i);
        var value := Lookup(ms, ms[i].key).value;
        AppendMember(Member(ms[i].key, value), i < |ms| - 1, level, st, numBuf);
      }
    }

    method AppendObject(ms: seq<Member>, level: nat, st: Style, numBuf: array?<byte>)
      requires WellFormed(Object(ms))
      requires Ready(numBuf, |Text(Object(ms), level, st)|)
      modifies this, buf, numBuf
      ensures Appended(Text(Object(ms), level, st)) && Terminated()
      decreases ms, 1
    {
      hide MembersText;
      AppendString([LBRACE]);
      if |ms| > 0 {
        AppendBreak(st);
        AppendMembers(ms, level, st, numBuf);
        AppendInd(level, st);
        AppendString([RBRACE]);
        Regroup5(old(text), [LBRACE], Nl(st), MembersText(ms, level, st), Ind(level, st), [RBRACE]);
      } else {
        AppendString([RBRACE]);
        Assoc(old(text), [LBRACE], [RBRACE]);
        assert [] + [RBRACE] == [RBRACE];
      }
    }
  }

  lemma PlainByte(c: byte, slashes: bool)
    requires c != QUOTE && c != BACKSLASH && c != SLASH && c >= 0x20
    ensures EscapeText(c, slashes) == [c]
  {
  }

  lemma Regroup4(s: bytes, a: bytes, b: bytes, c: bytes, d: bytes)
    ensures s + a + b + c + d == s + (a + (b + (c + d)))
  {
  }

  lemma Regroup5(s: bytes, a: bytes, b: bytes, c: bytes, d: bytes, e: bytes)
    ensures s + a + b + c + d + e == s + (a + ((b + (c + d)) + e))
  {
  }

  lemma Regroup6(s: bytes, a: bytes, b: bytes, c: bytes, d: bytes, e: bytes, f: bytes)
    ensures s + a + b + c + d + e + f == s + (a + (b + (c + (d + (e + f)))))
  {
  }

  lemma {:induction false} DigitsFit(n: nat, k: nat, bound: nat)
    requires n < bound && bound == Power10(k) && k >= 1
    ensures |Decimal.NatText(n)| <= k
  {
    if n >= 10 {
      DigitsFit(n / 10, k - 1, Power10(k - 1));
    }
  }

  function Power10(k: nat): nat {
    if k == 0 then 1 else 10 * Power10(k - 1)
  }

  /** "%1.17g" of an integer fits the number buffer with room to spare. */
  lemma NumberFits(n: int)
    requires -MAX_INTEGER <= n <= MAX_INTEGER
    ensures |Decimal.IntText(n)| <= 17 < NUM_BUF_SIZE
  {
    assert Power10(4) == 10000;
    assert Power10(8) == 100000000;
    assert Power10(12) == 1000000000000;
    assert Power10(16) == 10000000000000000;
    DigitsFit(if n < 0 then -n else n, 16, Power10(16));
  }

  /** `json_serialization_size` and its pretty form: the bytes needed, terminator included. */
  method SerializationSize(v: Value, st: Style) returns (size: nat)
    requires WellFormed(v)
    ensures size == |Serialize(v, st)| + 1
  {
    var numBuf := new byte[NUM_BUF_SIZE];
    var measure := new Output(null);
    measure.AppendValue(v, 0, st, numBuf);
    size := measure.written + 1;
  }

  /** `json_serialize_to_buffer`: refuses a buffer that is too small without
      touching it, otherwise fills exactly the bytes measured and terminates them. */
  method SerializeToBuffer(v: Value, st: Style, buf: array<byte>) returns (ok: bool)
    requires WellFormed(v)
    modifies buf
    ensures ok <==> buf.Length >= |Serialize(v, st)| + 1
    ensures ok ==> buf[..|Serialize(v, st)| + 1] == Serialize(v, st) + [NUL]
    ensures ok ==> buf[|Serialize(v, st)| + 1..] == old(buf[|Serialize(v, st)| + 1..])
    ensures !ok ==> buf[..] == old(buf[..])
  {
    var needed := SerializationSize(v, st);
    if buf.Length < needed {
      return false;
    }
    var output := new Output(buf);
    output.AppendValue(v, 0, st, null);
    assert output.text == Serialize(v, st);
    ok := true;
  }

  /** `json_serialize_to_string` and its pretty form: a terminated text in an
      allocation of exactly its size. */
  method SerializeToString(v: Value, st: Style) returns (text: array<byte>)
    requires WellFormed(v)
    ensures fresh(text)
    ensures text[..] == Serialize(v, st) + [NUL]
  {
    var size := SerializationSize(v, st);
    text := new byte[size];
    var ok := SerializeToBuffer(v, st, text);
    assert text[..] == text[..|Serialize(v, st)| + 1];
  }
}
