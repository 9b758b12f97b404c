/**
  The string routines of parson in their own form: cursors that move and output
  buffers that are filled through indices. Each is proved against the functions
  of JsonStrings; every array access is inside the buffer the source allocates.
 */
module StringScanner {
  import opened Bytes
  import opened JsonStrings
  import Utf8

  /** `skip_quotes`. */
  method SkipQuotes(t: bytes) returns (found: bool, next: bytes)
    ensures found <==> Peek(t) == QUOTE && SkipBody(t[1..]).Some?
    ensures found ==> Some(next) == SkipBody(t[1..])
  {
    next := t;
    if Peek(t) != QUOTE {
      return false, next;
    }
    next := next[1..];
    while Peek(next) != QUOTE
      invariant SkipBody(next) == SkipBody(t[1..])
      decreases |next|
    {
      if Peek(next) == NUL {
        return false, next;
      } else if next[0] == BACKSLASH {
        assert |next| > 1 ==> next[1..][1..] == next[2..];
        next := next[1..];
        if Peek(next) == NUL {
          return false, next;
        }
      }
      next := next[1..];
    }
    next := next[1..];
    return true, next;
  }

  /** The output buffer has grown by out at pos, and what stood before pos is kept. */
  twostate predicate Wrote(buf: array<byte>, pos: nat, out: bytes)
    requires pos + |out| <= buf.Length
    reads buf
  {
    buf[..pos + |out|] == old(buf[..pos]) + out
  }

  /** The stores of `parse_utf16`, for each length of the encoding; the result is
      the index of the last byte stored. */
  method StoreCodePoint(cp: nat, buf: array<byte>, pos: nat) returns (end: nat)
    requires Utf8.Scalar(cp)
    requires pos + |Utf8.Encode(cp)| <= buf.Length
    modifies buf
    ensures end == pos + |Utf8.Encode(cp)| - 1
    ensures Wrote(buf, pos, Utf8.Encode(cp))
  {
    end := pos;
    if cp < 0x80 {
      buf[pos] := cp;
    } else if cp < 0x800 {
      buf[pos] := cp / 64 % 32 + 0xC0;
      buf[pos + 1] := cp % 64 + 0x80;
      end := end + 1;
    } else if cp < 0x10000 {
      buf[pos] := cp / 4096 % 16 + 0xE0;
      buf[pos + 1] := cp / 64 % 64 + 0x80;
      buf[pos + 2] := cp % 64 + 0x80;
      end := end + 2;
    } else {
      buf[pos] := cp / 262144 % 8 + 0xF0;
      buf[pos + 1] := cp / 4096 % 64 + 0x80;
      buf[pos + 2] := cp / 64 % 64 + 0x80;
      buf[pos + 3] := cp % 64 + 0x80;
      end := end + 3;
    }
  }

  /** `parse_utf16`: u is the text from the `u` of the escape at the front of t.
      On success the cursors stand at the last byte read and the last byte written. */
  method ParseUtf16(ghost t: bytes, u: bytes, buf: array<byte>, pos: nat) returns (ok: bool, last: bytes, end: nat)
    requires |t| >= 2 && t[..2] == UNICODE_PREFIX && u == t[1..]
    requires DecodeUnicode(t).Step? ==> pos + |DecodeUnicode(t).out| <= buf.Length
    modifies buf
    ensures ok <==> DecodeUnicode(t).Step?
    ensures ok ==> last == t[DecodeUnicode(t).used - 1..] && end == pos + |DecodeUnicode(t).out| - 1
    ensures ok ==> Wrote(buf, pos, DecodeUnicode(t).out)
  {
    var cur := u[1..];
    assert cur == t[2..];
    last, end := u, pos;
    var unit := ParseHex(cur);
    if unit == None {
      return false, last, end;
    }
    var cp := unit.value;
    if cp < 0xD800 || cp > 0xDFFF {
      end := StoreCodePoint(cp, buf, pos);
    } else if cp <= 0xDBFF {
      cur := cur[4..];
      if Peek(cur) != BACKSLASH || Peek(cur[1..]) != 0x75 {
        return false, last, end;
      }
      cur := cur[2..];
      assert cur == t[8..];
      var trail := ParseHex(cur);
      if trail == None || trail.value < 0xDC00 || trail.value > 0xDFFF {
        return false, last, end;
      }
      end := StoreCodePoint(Combine(cp, trail.value), buf, pos);
    } else {
      return false, last, end;
    }
    last := cur[3..];
    ok := true;
  }

  /** The body of the loop of `process_string`: decodes the character at t[i] into
      the buffer at o and moves both cursors behind it. */
  method DecodeInto(t: bytes, i: nat, buf: array<byte>, o: nat) returns (ok: bool, i': nat, o': nat)
    requires i < |t|
    requires DecodeOne(t[i..]).Step? ==> o + |DecodeOne(t[i..]).out| <= buf.Length
    modifies buf
    ensures ok <==> DecodeOne(t[i..]).Step?
    ensures ok ==> i' == i + DecodeOne(t[i..]).used && o' == o + |DecodeOne(t[i..]).out|
    ensures ok ==> Wrote(buf, o, DecodeOne(t[i..]).out)
  {
    i', o' := i, o;
    if t[i] == BACKSLASH {
      i' := i' + 1;
      if i' == |t| {
        return false, i', o';
      }
      assert t[i..][1..] == t[i'..];
      if t[i'] == 0x75 {
        var fine, last, end := ParseUtf16(t[i..], t[i'..], buf, o);
        if !fine {
          return false, i', o';
        }
        i', o' := |t| - |last|, end;
      } else {
        var b := Unescape(t[i']);
        if b == None {
          return false, i', o';
        }
        buf[o] := b.value;
      }
    } else if t[i] < 0x20 {
      return false, i', o';
    } else {
      buf[o] := t[i];
    }
    o', i' := o' + 1, i' + 1;
    ok := true;
  }

  function Prepend(out: bytes, used: nat, d: Decoded): Decoded {
    match d
    case Invalid => Invalid
    case Decoded(rest, more) => Decoded(out + rest, used + more)
  }

  /** A step of process_string never crosses the closing quote. */
  lemma StepStaysInside(t: bytes, next: bytes, out: bytes, used: nat)
    requires SkipBody(t) == Some(next) && |t| - |next| - 1 > 0
    requires DecodeOne(t) == Step(out, used)
    ensures used < |t| && SkipBody(t[used..]) == Some(next)
  {
    var p := DecodeOneSound(t);
    Rejoin(t, used);
    SkipPiece(p, t[used..]);
  }

  lemma PrependTwice(a: bytes, m: nat, b: bytes, n: nat, d: Decoded)
    ensures Prepend(a, m, Prepend(b, n, d)) == Prepend(a + b, m + n, d)
  {
    if d.Decoded? {
      Assoc(a, b, d.out);
    }
  }

  /** What the loop of `process_string` keeps: the i bytes read so far have given
      the bytes done, and the rest of the string still closes where it did. */
  ghost predicate Progress(t: bytes, n: nat, next: bytes, i: nat, done: bytes) {
    && i <= n < |t|
    && |done| <= i
    && SkipBody(t[i..]) == Some(next)
    && Decode(t, n) == Prepend(done, i, Decode(t[i..], n - i))
  }

  lemma ProgressStep(t: bytes, n: nat, next: bytes, i: nat, done: bytes, step: Step)
    requires n == |t| - |next| - 1
    requires Progress(t, n, next, i, done) && i < n
    requires step == DecodeOne(t[i..])
    ensures step.Bad? ==> Decode(t, n).Invalid?
    ensures step.Step? ==> i + step.used <= n && Progress(t, n, next, i + step.used, done + step.out)
  {
    BodyEnds(t[i..], next);
    if step.Step? {
      StepStaysInside(t[i..], next, step.out, step.used);
      DropDrop(t, i, step.used);
      PrependTwice(done, i, step.out, step.used, Decode(t[i + step.used..], n - i - step.used));
    }
  }

  lemma ProgressStart(t: bytes, n: nat, next: bytes, done: bytes)
    requires SkipBody(t) == Some(next) && n == |t| - |next| - 1 && done == []
    ensures Progress(t, n, next, 0, done)
  {
    assert t[0..] == t;
    PrependNothing(Decode(t, n));
  }

  lemma PrependNothing(d: Decoded)
    ensures Prepend([], 0, d) == d
  {
    if d.Decoded? {
      assert [] + d.out == d.out;
    }
  }

  lemma ProgressDone(t: bytes, n: nat, next: bytes, i: nat, done: bytes)
    requires n == |t| - |next| - 1
    requires Progress(t, n, next, i, done)
    requires i >= n || t[i] == NUL
    ensures Decode(t, n) == Decoded(done, n)
  {
    BodyEnds(t[i..], next);
  }

  /** `process_string`, called as `get_quoted_string` does: n bytes up to the quote. */
  method ProcessString(t: bytes, n: nat, ghost next: bytes) returns (ok: bool, text: bytes)
    requires SkipBody(t) == Some(next) && n == |t| - |next| - 1
    ensures ok <==> Decode(t, n).Decoded?
    ensures ok ==> Decode(t, n) == Decoded(text, n)
  {
    hide Progress;
    var output := new byte[n + 1];
    var i, o := 0, 0;
    text := [];
    ProgressStart(t, n, next, output[..o]);
    while i < |t| && t[i] != NUL && i < n
      invariant 0 <= o <= i <= n < |t|
      invariant Progress(t, n, next, i, output[..o])
    {
      ProgressStep(t, n, next, i, output[..o], DecodeOne(t[i..]));
      ok, i, o := DecodeInto(t, i, output, o);
      if !ok {
        return false, text;
      }
    }
    output[o] := NUL;
    text := output[..o];
    ProgressDone(t, n, next, i, text);
    ok := true;
  }

  /** Inside the quotes the text does not end. */
  lemma BodyEnds(t: bytes, next: bytes)
    requires SkipBody(t) == Some(next)
    ensures Peek(t) != NUL
  {
  }

  /** `get_quoted_string`. */
  method GetQuotedString(t: bytes) returns (q: Quoted)
    ensures q == GetQuoted(t)
  {
    var found, next := SkipQuotes(t);
    if !found {
      return NoString;
    }
    var ok, text := ProcessString(t[1..], |t| - |next| - 2, next);
    if !ok {
      return NoString;
    }
    return Quoted(text, next);
  }
}
