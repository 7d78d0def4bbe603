/** The growing buffer of debug_helpers.c and the printer that writes records from memory into it. */
module Hstring {
  import opened Common
  import opened WafObjects
  import opened Records
  import opened Rendering
  import opened Transcoder
  import opened OffHeap
  import opened Leases

  const INITIAL_CAPACITY: nat := 16

  /** `hstring`; the capacity is the length of the buffer. */
  class HString {
    var buffer: array<byte>
    var offset: nat

    ghost predicate Valid()
      reads this
    {
      offset <= buffer.Length
    }

    ghost function Contents(): seq<byte>
      requires Valid()
      reads this, buffer
    {
      buffer[..offset]
    }

    constructor ()
      ensures Valid() && fresh(buffer) && Contents() == [] && buffer.Length == 16
    {
      buffer := new byte[INITIAL_CAPACITY];
      offset := 0;
    }

    /** `_hstring_ensure_extra_capacity`: room for dataSize more bytes, and what is there stays. */
    method EnsureExtraCapacity(dataSize: nat)
      requires Valid()
      modifies this`buffer
      ensures Valid() && buffer.Length - offset >= dataSize && Contents() == old(Contents())
      ensures buffer == old(buffer) || fresh(buffer)
      ensures buffer.Length == if dataSize <= old(buffer.Length) - offset then old(buffer.Length)
                               else Max(2 * old(buffer.Length), old(buffer.Length) + dataSize)
    {
      var left := buffer.Length - offset;
      if left < dataSize {
        var newCapacity := Max(buffer.Length * 2, buffer.Length + dataSize);
        var newBuffer := new byte[newCapacity];
        forall i | 0 <= i < buffer.Length {
          newBuffer[i] := buffer[i];
        }
        assert newBuffer[..offset] == buffer[..offset];
        buffer := newBuffer;
      }
    }

    /** `_hstring_append`. */
    method Append(data: seq<byte>)
      requires Valid()
      modifies this, buffer
      ensures Valid() && Contents() == old(Contents()) + data
      ensures buffer == old(buffer) || fresh(buffer)
    {
      if |data| == 0 {
        return;
      }
      EnsureExtraCapacity(|data|);
      Copy(data);
    }

    /** The `memcpy` of `_hstring_append`. */
    method Copy(data: seq<byte>)
      requires Valid() && |data| <= buffer.Length - offset
      modifies this`offset, buffer
      ensures Valid() && Contents() == old(Contents()) + data
    {
      ghost var before := Contents();
      for i := 0 to |data|
        invariant offset == old(offset) && buffer[..offset + i] == before + data[..i]
      {
        buffer[offset + i] := data[i];
        assert data[..i + 1] == data[..i] + [data[i]];
      }
      offset := offset + |data|;
      assert data[..|data|] == data;
    }

    /** `_hstring_repeat`. */
    method Repeat(c: byte, repeatTimes: nat)
      requires Valid()
      modifies this, buffer
      ensures Valid() && Contents() == old(Contents()) + Repeated(c, repeatTimes)
      ensures buffer == old(buffer) || fresh(buffer)
    {
      if repeatTimes == 0 {
        return;
      }
      EnsureExtraCapacity(repeatTimes);
      Fill(c, repeatTimes);
    }

    /** The loop of `_hstring_repeat`. */
    method Fill(c: byte, repeatTimes: nat)
      requires Valid() && repeatTimes <= buffer.Length - offset
      modifies this`offset, buffer
      ensures Valid() && Contents() == old(Contents()) + Repeated(c, repeatTimes)
    {
      ghost var before := Contents();
      for i := 0 to repeatTimes
        invariant offset == old(offset) && buffer[..offset] == before
        invariant forall k :: offset <= k < offset + i ==> buffer[k] == c
      {
        buffer[offset + i] := c;
      }
      assert buffer[offset..offset + repeatTimes] == Repeated(c, repeatTimes);
      offset := offset + repeatTimes;
      assert buffer[..offset] == before + Repeated(c, repeatTimes);
    }
  }

  /** `snprintf` into a scratch buffer, appended when it fits. */
  method AppendScratch(str: HString, text: seq<byte>, scratch: nat)
    requires str.Valid()
    modifies str, str.buffer
    ensures str.Valid() && str.Contents() == old(str.Contents()) + Shown(text, scratch)
    ensures str.buffer == old(str.buffer) || fresh(str.buffer)
  {
    if |text| < scratch {
      str.Append(text);
    }
  }

  /** A heading, a formatted number and the end of the line. */
  method WriteNumber(str: HString, heading: seq<byte>, text: seq<byte>, scratch: nat)
    requires str.Valid()
    modifies str, str.buffer
    ensures str.Valid() && str.Contents() == old(str.Contents()) + (heading + Shown(text, scratch) + Ascii("\n"))
    ensures str.buffer == old(str.buffer) || fresh(str.buffer)
  {
    hide Ascii, Shown;
    str.Append(heading);
    AppendScratch(str, text, scratch);
    str.Append(Ascii("\n"));
  }

  method WriteText(str: HString, s: seq<byte>)
    requires str.Valid()
    modifies str, str.buffer
    ensures str.Valid() && str.Contents() == old(str.Contents()) + (Ascii("<STRING> ") + s + Ascii("\n"))
    ensures str.buffer == old(str.buffer) || fresh(str.buffer)
  {
    hide Ascii;
    str.Append(Ascii("<STRING> "));
    str.Append(s);
    str.Append(Ascii("\n"));
  }

  method WriteBool(str: HString, truth: bool)
    requires str.Valid()
    modifies str, str.buffer
    ensures str.Valid()
    ensures str.Contents() == old(str.Contents()) + (Ascii("<BOOL> ") + (if truth then Ascii("true\n") else Ascii("false\n")))
    ensures str.buffer == old(str.buffer) || fresh(str.buffer)
  {
    hide Ascii;
    str.Append(Ascii("<BOOL> "));
    str.Append(if truth then Ascii("true\n") else Ascii("false\n"));
  }

  lemma LeafCases(m: seq<byte>, r: Record, rounding: Rounding)
    requires IsKnown(r.typ) && DecodeScalar(m, r).Some?
    ensures r.typ == 0 || r.typ == 128 || r.typ == 1 || r.typ == 2 || r.typ == 64 || r.typ == 32 || r.typ == 4
    ensures !IsContainer(DecodeScalar(m, r).value)
    ensures var text := LeafText(DecodeScalar(m, r).value, rounding);
      && (r.typ == 0 ==> text == Ascii("<INVALID>\n"))
      && (r.typ == 128 ==> text == Ascii("<NULL>\n"))
      && (r.typ == 1 ==> text == Ascii("<SIGNED> ") + Decimal(FromTwos(r.value)) + Ascii("\n"))
      && (r.typ == 2 ==> text == Ascii("<UNSIGNED> ") + Decimal(r.value) + Ascii("\n"))
      && (r.typ == 64 ==>
            text == Ascii("<FLOAT> ") + Shown(Scientific(rounding(r.value)), DOUBLE_SCRATCH) + Ascii("\n"))
      && (r.typ == 32 ==>
            text == Ascii("<BOOL> ") + (if r.value % 256 != 0 then Ascii("true\n") else Ascii("false\n")))
      && (r.typ == 4 ==>
            r.value + r.entries <= |m| && text == Ascii("<STRING> ") + m[r.value..r.value + r.entries] + Ascii("\n"))
  {
    hide Ascii, Decimal, Scientific, Shown;
  }

  lemma RenderParts(m: seq<byte>, a: nat, depth: nat, rounding: Rounding)
    requires depth <= MAX_PRINTED_DEPTH && RenderAt(m, a, depth, rounding).Some?
    ensures a + SIZEOF_PWARGS <= |m|
    ensures var r := ReadRecord(m, a);
      && DecodeName(m, r).Some? && BodyAt(m, r, depth, rounding).Some?
      && RenderAt(m, a, depth, rounding).value ==
         Repeated(0x20, depth * 2) + NameShown(DecodeName(m, r).value) + BodyAt(m, r, depth, rounding).value
  {
    hide ReadRecord, DecodeName, BodyAt, Repeated, NameShown;
  }

  lemma Together(before: seq<byte>, x: seq<byte>, y: seq<byte>, z: seq<byte>)
    ensures before + x + y + z == before + (x + y + z)
  {
  }

  /** The cases of the `switch` for values without entries. */
  method WriteLeaf(str: HString, m: seq<byte>, r: Record, rounding: Rounding)
    requires str.Valid() && IsKnown(r.typ) && DecodeScalar(m, r).Some?
    modifies str, str.buffer
    ensures str.Valid() && !IsContainer(DecodeScalar(m, r).value)
    ensures str.Contents() == old(str.Contents()) + LeafText(DecodeScalar(m, r).value, rounding)
    ensures str.buffer == old(str.buffer) || fresh(str.buffer)
  {
    LeafCases(m, r, rounding);
    hide *;
    if r.typ == 0 {
      str.Append(Ascii("<INVALID>\n"));
    } else if r.typ == 128 {
      str.Append(Ascii("<NULL>\n"));
    } else if r.typ == 1 {
      IntegersShown(FromTwos(r.value));
      WriteNumber(str, Ascii("<SIGNED> "), Decimal(FromTwos(r.value)), 21);
    } else if r.typ == 2 {
      IntegersShown(r.value);
      WriteNumber(str, Ascii("<UNSIGNED> "), Decimal(r.value), 21);
    } else if r.typ == 64 {
      WriteNumber(str, Ascii("<FLOAT> "), Scientific(rounding(r.value)), DOUBLE_SCRATCH);
    } else if r.typ == 32 {
      WriteBool(str, r.value % 256 != 0);
    } else {
      WriteText(str, m[r.value..r.value + r.entries]);
    }
  }

  /** `_hstring_write_pwargs`, on records that lie in memory. */
  method WritePwargs(str: HString, depth: nat, m: seq<byte>, a: nat, rounding: Rounding)
    requires str.Valid() && RenderAt(m, a, depth, rounding).Some?
    modifies str, str.buffer
    ensures str.Valid() && str.Contents() == old(str.Contents()) + RenderAt(m, a, depth, rounding).value
    ensures str.buffer == old(str.buffer) || fresh(str.buffer)
    decreases MAX_PRINTED_DEPTH + 1 - depth, 0, 1
  {
    if depth > MAX_PRINTED_DEPTH {
      return;
    }
    RenderParts(m, a, depth, rounding);
    hide *;
    var r := ReadRecord(m, a);
    Together(str.Contents(), Repeated(0x20, depth * 2), NameShown(DecodeName(m, r).value), BodyAt(m, r, depth, rounding).value);
    str.Repeat(0x20, depth * 2);
    WriteName(str, m, r);
    WriteBody(str, depth, m, r, rounding);
  }

  method WriteName(str: HString, m: seq<byte>, r: Record)
    requires str.Valid() && DecodeName(m, r).Some?
    modifies str, str.buffer
    ensures str.Valid() && str.Contents() == old(str.Contents()) + NameShown(DecodeName(m, r).value)
    ensures str.buffer == old(str.buffer) || fresh(str.buffer)
  {
    hide Ascii;
    if r.name != NULLPTR {
      str.Append(m[r.name..r.name + r.nameLen]);
      str.Append(Ascii(": "));
    }
  }

  lemma BodyParts(m: seq<byte>, r: Record, depth: nat, rounding: Rounding, before: seq<byte>)
    requires depth <= MAX_PRINTED_DEPTH && BodyAt(m, r, depth, rounding).Some?
    ensures var body := BodyAt(m, r, depth, rounding).value; var entries := RenderEntries(m, r.value, r.entries, depth + 1, rounding);
      && (r.typ == 8 ==> entries.Some? && before + body == before + Ascii("<ARRAY>\n") + entries.value)
      && (r.typ == 16 ==> entries.Some? && before + body == before + Ascii("<MAP>\n") + entries.value)
      && (IsKnown(r.typ) ==> DecodeScalar(m, r).Some? && body == LeafText(DecodeScalar(m, r).value, rounding))
      && (r.typ != 8 && r.typ != 16 && !IsKnown(r.typ) ==> body == Ascii("<UNKNOWN>\n"))
  {
    hide Ascii, RenderEntries, DecodeScalar, LeafText;
  }

  /** The `switch`. */
  method WriteBody(str: HString, depth: nat, m: seq<byte>, r: Record, rounding: Rounding)
    requires str.Valid() && depth <= MAX_PRINTED_DEPTH && BodyAt(m, r, depth, rounding).Some?
    modifies str, str.buffer
    ensures str.Valid() && str.Contents() == old(str.Contents()) + BodyAt(m, r, depth, rounding).value
    ensures str.buffer == old(str.buffer) || fresh(str.buffer)
    decreases MAX_PRINTED_DEPTH + 1 - depth, 0, 0
  {
    BodyParts(m, r, depth, rounding, str.Contents());
    hide *;
    if r.typ == 8 {
      str.Append(Ascii("<ARRAY>\n"));
      WriteEntries(str, depth + 1, m, r.value, r.entries, rounding);
    } else if r.typ == 16 {
      str.Append(Ascii("<MAP>\n"));
      WriteEntries(str, depth + 1, m, r.value, r.entries, rounding);
    } else if IsKnown(r.typ) {
      WriteLeaf(str, m, r, rounding);
    } else {
      str.Append(Ascii("<UNKNOWN>\n"));
    }
  }

  /** The loops over the entries of an array or a map. */
  method WriteEntries(str: HString, depth: nat, m: seq<byte>, a: nat, n: nat, rounding: Rounding)
    requires str.Valid() && RenderEntries(m, a, n, depth, rounding).Some?
    modifies str, str.buffer
    ensures str.Valid() && str.Contents() == old(str.Contents()) + RenderEntries(m, a, n, depth, rounding).value
    ensures str.buffer == old(str.buffer) || fresh(str.buffer)
    decreases MAX_PRINTED_DEPTH + 1 - depth, 1
  {
    hide RenderAt;
    ghost var whole := old(str.Contents()) + RenderEntries(m, a, n, depth, rounding).value;
    var i := 0;
    while i < n
      invariant 0 <= i <= n && str.Valid() && (str.buffer == old(str.buffer) || fresh(str.buffer))
      invariant RenderEntries(m, a + SIZEOF_PWARGS * i, n - i, depth, rounding).Some?
      invariant str.Contents() + RenderEntries(m, a + SIZEOF_PWARGS * i, n - i, depth, rounding).value == whole
    {
      WritePwargs(str, depth, m, a + SIZEOF_PWARGS * i, rounding);
      i := i + 1;
    }
  }

  /** `pwArgsBufferToString` on the address of a root record. */
  method PwArgsBufferToString(m: seq<byte>, a: nat, rounding: Rounding) returns (r: JString)
    requires RenderAt(m, a, 0, rounding).Some?
    ensures r == JStringOf(RenderAt(m, a, 0, rounding).value)
  {
    hide RenderAt;
    var str := new HString();
    WritePwargs(str, 0, m, a, rounding);
    hide JStringOf;
    assert str.buffer[..str.offset] == RenderAt(m, a, 0, rounding).value;
    r := JavaUtf8ToJString(str.buffer, str.offset);
  }

  /** Any root of an open lease prints as its tree: what was serialized there, truncated, and nothing else. */
  lemma RootPrints(l: ArenaLease, mem: seq<byte>, owner: seq<Tag>, i: nat, rounding: Rounding)
    requires LeaseOk(l, mem, owner) && i < |l.roots| && |mem| <= 0x1_0000_0000_0000_0000
    ensures RenderAt(mem, l.roots[i].addr, 0, rounding) == Some(Render(l.roots[i].tree, 0, rounding))
  {
    hide Listed, ObjectAt, RenderAt, Render;
    assert RootOk(l.roots[i], WorldIn(l.arena, mem, owner));
    RenderObject(mem, l.roots[i].area, l.roots[i].addr, l.roots[i].tree, 0, rounding);
  }
}
