/** The decoders, writers and conversion loops of utf16_utf8.c, over arrays and moving cursors. */
module Transcoder {
  import opened Common
  import opened Unicode
  import opened Bits

  /** How a conversion that builds a Java string ends. */
  datatype JString = JString(units: seq<unit16>) | Thrown(why: ConversionError)

  datatype ConversionError = TooLarge | UnexpectedlyTooShort | TooLong

  /** `_get_next_codepoint_utf16`: a new cursor, a status flag and a code point, 0 on failure. */
  method GetNextCodepointUtf16(str: array<unit16>, strLen: nat, cursor: nat)
    returns (codepoint: int, next: nat, status: bool)
    requires cursor < strLen <= str.Length
    ensures cursor < next && Step(status, codepoint, next - cursor) == NextUtf16(str[cursor..strLen])
  {
    ghost var s := str[cursor..strLen];
    var c := str[cursor];
    assert s[0] == c;
    if !Lead16(c) {
      if Trail16(c) {
        return 0, cursor + 1, false;
      }
      return c, cursor + 1, true;
    }
    if strLen - cursor < 2 {
      return 0, cursor + 1, false;
    }
    var c2 := str[cursor + 1];
    assert s[1] == c2;
    if !Trail16(c2) {
      return 0, cursor + 1, false;
    }
    return 0x1_0000 + ((c as int - 0xD800) * 0x400 + (c2 as int - 0xDC00)), cursor + 2, true;
  }

  // The continuation parts of `_get_next_codepoint_utf8`, one for each announced length. s is what is left to read.

  method NextOfTwo(str: array<byte>, strLen: nat, pos: nat) returns (codepoint: int, adv: nat, status: bool)
    requires pos < strLen <= str.Length && 0xC2 <= str[pos] < 0xE0
    ensures Step(status, codepoint, adv) == NextUtf8(str[pos..strLen])
  {
    ghost var s := str[pos..strLen];
    if strLen - pos < 2 {
      assert s[1..] == [];
      return 0, 1, false;
    }
    assert s[0] == str[pos] && s[1] == str[pos + 1];
    if !Utf8Trail(str[pos + 1]) {
      RunAfter(s, 1);
      return 0, if Utf8Lead(str[pos + 1]) then 1 else 2, false;
    }
    hide And, Or, Shl;
    Decoded2(str[pos], str[pos + 1]);
    codepoint := Or(Shl(And(str[pos], 0x1F), 6), And(str[pos + 1], 0x3F));
    if codepoint < 0x80 { // non-shortest form: unreachable, for the first byte is at least 0xC2
      assert false;
    }
    return codepoint, 2, true;
  }

  method NextOfThree(str: array<byte>, strLen: nat, pos: nat) returns (codepoint: int, adv: nat, status: bool)
    requires pos < strLen <= str.Length && 0xE0 <= str[pos] < 0xF0
    ensures Step(status, codepoint, adv) == NextUtf8(str[pos..strLen])
  {
    hide And, Or, Shl, NonLeadRun;
    ghost var s := str[pos..strLen];
    var avail := strLen - pos;
    assert s[0] == str[pos] && (avail > 1 ==> s[1] == str[pos + 1]) && (avail > 2 ==> s[2] == str[pos + 2]);
    RunAfter(s, 2);
    if avail < 3 || !Utf8Trail(str[pos + 1]) || !Utf8Trail(str[pos + 2]) {
      if avail < 2 || Utf8Lead(str[pos + 1]) {
        return 0, 1, false;
      } else if avail < 3 || Utf8Lead(str[pos + 2]) {
        return 0, 2, false;
      }
      return 0, 3, false;
    }
    Decoded3(str[pos], str[pos + 1], str[pos + 2]);
    codepoint := Or(Or(Shl(And(str[pos], 0x0F), 12), Shl(And(str[pos + 1], 0x3F), 6)), And(str[pos + 2], 0x3F));
    assert codepoint == Value3(s[0], s[1], s[2]);
    if codepoint < 0x800 { // non-shortest form
      return 0, 3, false;
    } else if 0xD800 <= codepoint <= 0xDFFF { // surrogate
      return 0, 3, false;
    }
    return codepoint, 3, true;
  }

  method NextOfFour(str: array<byte>, strLen: nat, pos: nat) returns (codepoint: int, adv: nat, status: bool)
    requires pos < strLen <= str.Length && 0xF0 <= str[pos] < 0xF5
    ensures Step(status, codepoint, adv) == NextUtf8(str[pos..strLen])
  {
    hide And, Or, Shl, NonLeadRun;
    ghost var s := str[pos..strLen];
    var avail := strLen - pos;
    assert s[0] == str[pos] && (avail > 1 ==> s[1] == str[pos + 1]);
    assert (avail > 2 ==> s[2] == str[pos + 2]) && (avail > 3 ==> s[3] == str[pos + 3]);
    RunAfter(s, 3);
    if avail < 4 || !Utf8Trail(str[pos + 1]) || !Utf8Trail(str[pos + 2]) || !Utf8Trail(str[pos + 3]) {
      if avail < 2 || Utf8Lead(str[pos + 1]) {
        return 0, 1, false;
      } else if avail < 3 || Utf8Lead(str[pos + 2]) {
        return 0, 2, false;
      } else if avail < 4 || Utf8Lead(str[pos + 3]) {
        return 0, 3, false;
      }
      return 0, 4, false;
    }
    Decoded4(str[pos], str[pos + 1], str[pos + 2], str[pos + 3]);
    codepoint := Or(Or(Or(Shl(And(str[pos], 0x07), 18), Shl(And(str[pos + 1], 0x3F), 12)),
                       Shl(And(str[pos + 2], 0x3F), 6)), And(str[pos + 3], 0x3F));
    assert codepoint == Value4(s[0], s[1], s[2], s[3]);
    if codepoint < 0x1_0000 || codepoint > 0x10FFFF { // non-shortest form or outside range
      return 0, 4, false;
    }
    return codepoint, 4, true;
  }

  /** The run of non-lead bytes after the first byte, read off one position at a time. */
  lemma RunAfter(s: seq<byte>, limit: nat)
    requires s != [] && 1 <= limit <= 3
    ensures var n := NonLeadRun(s[1..], limit);
      if |s| < 2 || Utf8Lead(s[1]) then n == 0
      else if limit == 1 || |s| < 3 || Utf8Lead(s[2]) then n == 1
      else if limit == 2 || |s| < 4 || Utf8Lead(s[3]) then n == 2
      else n == 3
  {
    var t, n := s[1..], NonLeadRun(s[1..], limit);
    assert |s| > 1 ==> t[0] == s[1];
    assert |s| > 2 ==> t[1] == s[2];
    assert |s| > 3 ==> t[2] == s[3];
  }

  /** `_get_next_codepoint_utf8`. */
  method GetNextCodepointUtf8(str: array<byte>, strLen: nat, cursor: nat)
    returns (codepoint: int, next: nat, status: bool)
    requires cursor < strLen <= str.Length
    ensures cursor < next && Step(status, codepoint, next - cursor) == NextUtf8(str[cursor..strLen])
  {
    var c := str[cursor];
    assert str[cursor..strLen][0] == c;
    var adv;
    if c < 0x80 {
      codepoint, adv, status := c, 1, true;
    } else if c < 0xC2 {
      codepoint, adv, status := 0, 1, false;
    } else if c < 0xE0 {
      codepoint, adv, status := NextOfTwo(str, strLen, cursor);
    } else if c < 0xF0 {
      codepoint, adv, status := NextOfThree(str, strLen, cursor);
    } else if c < 0xF5 {
      codepoint, adv, status := NextOfFour(str, strLen, cursor);
    } else {
      codepoint, adv, status := 0, 1, false;
    }
    next := cursor + adv;
  }

  /** `_write_utf8_codeunits` at out[at..]: the four bytes the caller guarantees are there. */
  method WriteUtf8CodeUnits(out: array<byte>, at: nat, k: int) returns (n: nat)
    requires IsScalar(k) && at + 4 <= out.Length
    modifies out
    ensures n == |WriteUtf8(k)| && out[..at + n] == old(out[..at]) + WriteUtf8(k)
  {
    hide And, Or, Shr;
    if k < 0x80 {
      out[at] := k;
      n := 1;
    } else if k < 0x800 {
      Bits.Written2(k);
      out[at] := Or(0xC0, Shr(k, 6));
      out[at + 1] := Or(0x80, And(k, 0x3F));
      n := 2;
    } else if k < 0x1_0000 {
      Bits.Written3(k);
      out[at] := Or(0xE0, Shr(k, 12));
      out[at + 1] := Or(0x80, And(Shr(k, 6), 0x3F));
      out[at + 2] := Or(0x80, And(k, 0x3F));
      n := 3;
    } else {
      Bits.Written4(k);
      out[at] := Or(0xF0, Shr(k, 18));
      out[at + 1] := Or(0x80, And(Shr(k, 12), 0x3F));
      out[at + 2] := Or(0x80, And(Shr(k, 6), 0x3F));
      out[at + 3] := Or(0x80, And(k, 0x3F));
      n := 4;
    }
  }

  /** `_write_utf16_codeunits` at out[at..]. */
  method WriteUtf16CodeUnits(out: array<unit16>, at: nat, k: int) returns (n: nat)
    requires IsScalar(k) && at + |WriteUtf16(k)| <= out.Length
    modifies out
    ensures n == |WriteUtf16(k)| && out[..at + n] == old(out[..at]) + WriteUtf16(k)
  {
    if k < 0x1_0000 {
      out[at] := k;
      n := 1;
    } else {
      hide And, Or, Shr;
      Written16(k);
      out[at] := Or(0xD800, Shr(And(k, 0xFFFF), 10)); // the high bits, of the low sixteen only
      out[at + 1] := Or(0xDC00, And(k, 0x3FF));
      n := 2;
    }
  }

  /** The growth test of the loop: when fewer than four bytes are free, the block is doubled, once. */
  method EnsureFourFree(out: array<byte>, outLen: nat, outCap: nat) returns (newOut: array<byte>, newCap: nat)
    requires out.Length == outCap + 1 && outLen <= outCap && 4 <= outCap
    ensures newOut == out || fresh(newOut)
    ensures newOut.Length == newCap + 1 && newCap - outLen >= 4 && newOut[..outLen] == out[..outLen]
    ensures newCap == if outCap - outLen < 4 then 2 * outCap else outCap
  {
    newOut, newCap := out, outCap;
    if outCap - outLen < 4 {
      newCap := outCap * 2;
      newOut := new byte[newCap + 1];
      for i := 0 to outLen
        invariant newOut[..i] == out[..i]
      {
        newOut[i] := out[i];
      }
    }
  }

  /** The rest of the loop body: read one code point, repair it, write it. */
  method EncodeOne(input: array<unit16>, length: nat, inCursor: nat, out: array<byte>, outLen: nat)
    returns (next: nat, n: nat)
    requires inCursor < length <= input.Length && outLen + 4 <= out.Length
    modifies out
    ensures inCursor < next <= length && n <= 3 * (next - inCursor) && n <= 4
    ensures out[..outLen + n] + Utf16ToUtf8(input[next..length])
            == old(out[..outLen]) + Utf16ToUtf8(input[inCursor..length])
  {
    ghost var done, todo := out[..outLen], input[inCursor..length];
    var cp, status;
    cp, next, status := GetNextCodepointUtf16(input, length, inCursor);
    if !status {
      cp := REPL_CHAR;
    }
    assert todo[next - inCursor..] == input[next..length];
    EncodeProgress(done, todo);
    n := WriteUtf8CodeUnits(out, outLen, cp);
  }

  /** One step of the encoder: what it writes, and that it is at most three bytes for each unit read. */
  lemma EncodeProgress(done: seq<byte>, todo: seq<unit16>)
    requires todo != []
    ensures var st := NextUtf16(todo);
      && 1 <= st.adv <= |todo| && IsScalar(Repaired(st))
      && |WriteUtf8(Repaired(st))| <= 3 * st.adv
      && done + WriteUtf8(Repaired(st)) + Utf16ToUtf8(todo[st.adv..]) == done + Utf16ToUtf8(todo)
  {
    hide *;
    EncodeStep(todo);
    EncodedLength(todo);
    var st := NextUtf16(todo);
    Associate(done, WriteUtf8(Repaired(st)), Utf16ToUtf8(todo[st.adv..]));
  }

  lemma EncodedLength(todo: seq<unit16>)
    requires todo != []
    ensures var st := NextUtf16(todo); IsScalar(Repaired(st)) && |WriteUtf8(Repaired(st))| <= 3 * st.adv
  {
  }

  /**
    `java_utf16_to_utf8_checked`. The output is the lenient encoding followed by a NUL; the buffer never holds
    less than four free bytes before a write, and its size stays below a fixed multiple of the input's.
    */
  method JavaUtf16ToUtf8(input: array<unit16>, length: nat) returns (out: array<byte>, outLen: nat)
    requires length <= input.Length && length <= INT_MAX
    ensures outLen < out.Length && out[..outLen] == Utf16ToUtf8(input[..length]) && out[outLen] == 0
    ensures outLen <= 3 * length && out.Length <= 6 * length + 9
  {
    hide Utf16ToUtf8;
    EmptyEncoding([]);
    var outCap := length + 3; // not including NUL
    outLen := 0;
    out := new byte[outCap + 1];
    var inCursor := 0;
    assert input[0..length] == input[..length];
    while inCursor < length
      invariant fresh(out) && inCursor <= length && out.Length == outCap + 1
      invariant outLen <= 3 * inCursor && outLen <= outCap && length + 3 <= outCap <= 6 * length + 8
      invariant out[..outLen] + Utf16ToUtf8(input[inCursor..length]) == Utf16ToUtf8(input[..length])
    {
      out, outCap := EnsureFourFree(out, outLen, outCap);
      var next, n := EncodeOne(input, length, inCursor, out, outLen);
      inCursor, outLen := next, outLen + n;
    }
    assert input[inCursor..length] == [];
    assert out[..outLen] == Utf16ToUtf8(input[..length]);
    out[outLen] := 0;
  }

  /** The body of both UTF-8 loops: read one code point, repair it, check the room, write it. */
  method DecodeOne(input: array<byte>, inLen: nat, inCursor: nat, out: array<unit16>, outLen: nat, outCap: nat)
    returns (next: nat, n: nat, short: bool)
    requires inCursor < inLen <= input.Length && outLen <= outCap < out.Length
    modifies out
    ensures next == inCursor + NextUtf8(input[inCursor..inLen]).adv && inCursor < next <= inLen
    ensures n == |DecodedStep(input[inCursor..inLen])| && 1 <= n <= next - inCursor
    ensures short == (outCap < outLen + n)
    ensures !short ==> out[..outLen + n] == old(out[..outLen]) + DecodedStep(input[inCursor..inLen])
  {
    ghost var todo := input[inCursor..inLen];
    DecodedStepLength(todo);
    StepsAreScalar8(todo);
    var cp, status;
    cp, next, status := GetNextCodepointUtf8(input, inLen, inCursor);
    if !status {
      cp := REPL_CHAR;
    }
    if outCap < outLen + 1 || (cp > 0xFFFF && outCap < outLen + 2) {
      return next, if cp > 0xFFFF then 2 else 1, true;
    }
    short := false;
    n := WriteUtf16CodeUnits(out, outLen, cp);
  }

  /** One step of decoding todo, when done has been written already. */
  lemma DecodeProgress(done: seq<unit16>, todo: seq<byte>)
    requires todo != []
    ensures 1 <= NextUtf8(todo).adv <= |todo|
    ensures done + DecodedStep(todo) + Utf8ToUtf16(todo[NextUtf8(todo).adv..]) == done + Utf8ToUtf16(todo)
  {
    hide *;
    StepsAreScalar8(todo);
    DecodeStep(todo);
    Associate(done, DecodedStep(todo), Utf8ToUtf16(todo[NextUtf8(todo).adv..]));
  }

  /** The loop body over a whole buffer: what has been written and what is left still make up the result. */
  method DecodeNext(input: array<byte>, inLen: nat, inCursor: nat, out: array<unit16>, outLen: nat, outCap: nat)
    returns (next: nat, n: nat, short: bool)
    requires inCursor < inLen <= input.Length && outLen <= outCap < out.Length
    modifies out
    ensures inCursor < next <= inLen && n <= next - inCursor && short == (outCap < outLen + n)
    ensures !short ==> out[..outLen + n] + Utf8ToUtf16(input[next..inLen])
                       == old(out[..outLen]) + Utf8ToUtf16(input[inCursor..inLen])
  {
    hide NextUtf8, DecodedStep, Utf8ToUtf16;
    ghost var done, todo := out[..outLen], input[inCursor..inLen];
    next, n, short := DecodeOne(input, inLen, inCursor, out, outLen, outCap);
    DecodeProgress(done, todo);
    assert todo[next - inCursor..] == input[next..inLen];
  }

  /** The common ending of both loops: the NUL, the length check, the Java string. */
  method NewJString(out: array<unit16>, outLen: nat) returns (r: JString)
    requires outLen < out.Length
    modifies out
    ensures r == if outLen > INT_MAX then Thrown(TooLong) else JString(old(out[..outLen]))
  {
    out[outLen] := 0;
    if outLen > INT_MAX {
      return Thrown(TooLong);
    }
    r := JString(out[..outLen]);
  }

  /** The string both conversions of UTF-8 bytes to a Java string promise, with their two size limits. */
  function JStringOf(s: seq<byte>): JString {
    if |s| > SIZE_MAX / 2 - 1 then Thrown(TooLarge)
    else if |Utf8ToUtf16(s)| > INT_MAX then Thrown(TooLong)
    else JString(Utf8ToUtf16(s))
  }

  /**
    `java_utf8_to_jstring_checked`: the lenient decoding, unless a size is out of range. The room check in the loop
    never fails.
    */
  method JavaUtf8ToJString(input: array<byte>, inLen: nat) returns (r: JString)
    requires inLen <= input.Length
    ensures r == JStringOf(input[..inLen])
    ensures r.JString? <==> inLen <= 0x7FFF_FFFF_FFFF_FFFE && |Utf8ToUtf16(input[..inLen])| <= 0x7FFF_FFFF
  {
    hide Utf8ToUtf16;
    DecodeEmpty();
    var outCap := inLen;
    var outLen: nat := 0;
    if outCap > SIZE_MAX / 2 - 1 {
      return Thrown(TooLarge);
    }
    var out := new unit16[outCap + 1];
    var inCursor := 0;
    assert input[0..inLen] == input[..inLen];
    ghost var whole := Utf8ToUtf16(input[..inLen]);
    while inCursor < inLen
      invariant outLen <= inCursor <= inLen
      invariant out[..outLen] + Utf8ToUtf16(input[inCursor..inLen]) == whole
    {
      var next, n, short := DecodeNext(input, inLen, inCursor, out, outLen, outCap);
      if short {
        assert false;
        return Thrown(UnexpectedlyTooShort);
      }
      inCursor, outLen := next, outLen + n;
    }
    assert input[inCursor..inLen] == [];
    assert out[..outLen] == whole;
    r := NewJString(out, outLen);
  }
}
