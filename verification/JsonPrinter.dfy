/** `json_encode_str`, `_convert_json` and `output_convert_json`: printing into the segment list. */
module JsonPrinter {
  import opened Common
  import opened WafObjects
  import opened JsonText
  import opened JsonSegments

  /** `_json_str_encoded_size`. */
  method JsonStrEncodedSize(str: seq<byte>) returns (res: nat)
    ensures res == |Escape(str)|
  {
    res := 0;
    for i := 0 to |str|
      invariant res + |Escape(str[i..])| == |Escape(str)|
    {
      var c := str[i];
      if c == BACKSLASH || c == QUOTE {
        res := res + 2;
      } else if c < 0x20 {
        res := res + 6;
      } else {
        res := res + 1;
      }
    }
  }

  /** One character of `_json_encode_str` at out[at..]. */
  method EncodeByte(c: byte, out: array<byte>, at: nat) returns (n: nat)
    requires at + |EscapeByte(c)| <= out.Length
    modifies out
    ensures n == |EscapeByte(c)| && out[..at + n] == old(out[..at]) + EscapeByte(c)
  {
    if c == BACKSLASH || c == QUOTE {
      out[at], out[at + 1] := BACKSLASH, c;
      n := 2;
    } else if c < 0x20 {
      out[at], out[at + 1], out[at + 2], out[at + 3] := BACKSLASH, 0x75, 0x30, 0x30;
      out[at + 4], out[at + 5] := HexDigit(c / 16), HexDigit(c % 16);
      n := 6;
    } else {
      out[at] := c;
      n := 1;
    }
  }

  /** `_json_encode_str`: exactly the bytes the size function announced, all of them in bounds. */
  method JsonEncodeStrAt(str: seq<byte>, out: array<byte>, at: nat)
    requires at + |Escape(str)| <= out.Length
    modifies out
    ensures out[..at + |Escape(str)|] == old(out[..at]) + Escape(str)
  {
    hide Escape, EscapeByte;
    var o := at;
    assert str[0..] == str;
    for i := 0 to |str|
      invariant at <= o && o + |Escape(str[i..])| == at + |Escape(str)|
      invariant out[..o] + Escape(str[i..]) == old(out[..at]) + Escape(str)
    {
      EscapeStep(str, i);
      Associate(out[..o], EscapeByte(str[i]), Escape(str[i + 1..]));
      var n := EncodeByte(str[i], out, o);
      o := o + n;
    }
    EscapeNothing(str[|str|..]);
  }

  lemma EscapeStep(str: seq<byte>, i: nat)
    requires i < |str|
    ensures Escape(str[i..]) == EscapeByte(str[i]) + Escape(str[i + 1..])
  {
    assert str[i..][1..] == str[i + 1..];
  }

  lemma EscapeNothing(s: seq<byte>)
    ensures s == [] ==> Escape(s) == []
  {
  }

  /** `json_encode_str`: the escaped form of str at the end of the list, by `memcpy` when nothing needs escaping. */
  method JsonEncodeStr(seg: JsonSegment?, str: seq<byte>, ghost list: Segments)
    returns (r: JsonSegment?, ghost after: Segments)
    requires seg != null ==> list.EndsIn(seg)
    modifies if seg == null then {} else {seg, seg.data}
    ensures r == null <==> seg == null || !Fits(str)
    ensures r != null ==> after.EndsIn(r) && list.GrowsTo(after, Escape(str))
    ensures r != null ==> r == seg || (fresh(r) && fresh(r.data))
  {
    var encodedLen := JsonStrEncodedSize(str);
    r, after := JsonSegEnsure(seg, encodedLen, list);
    if r == null {
      return;
    }
    after := FillEscaped(r, str, encodedLen, after);
  }

  /** The second half of `json_encode_str`, once there is room. */
  method FillEscaped(seg: JsonSegment, str: seq<byte>, encodedLen: nat, ghost list: Segments)
    returns (ghost after: Segments)
    requires list.EndsIn(seg) && encodedLen == |Escape(str)| <= seg.size - seg.len
    modifies seg`len, seg.data
    ensures after.EndsIn(seg) && list.GrowsTo(after, Escape(str))
  {
    hide Escape;
    EscapeShortcut(str);
    if encodedLen == |str| {
      after := Fill(seg, str, list);
    } else {
      ghost var n := |list.chunks| - 1;
      after := Segments(list.segs, list.chunks[..n] + [list.chunks[n] + Escape(str)]);
      assert list.Holds(n);
      JsonEncodeStrAt(str, seg.data, seg.len);
      seg.len := seg.len + encodedLen;
      assert after.Holds(n);
      forall i | 0 <= i < n ensures after.Holds(i) {
        assert old(list.Holds(i));
      }
      FlattenLast(list.chunks, Escape(str));
    }
  }

  /** The three appends of a quoted string; `close` is the text after it, with the closing quote. */
  method AppendQuoted(seg: JsonSegment?, str: seq<byte>, close: seq<byte>, ghost list: Segments)
    returns (r: JsonSegment?, ghost after: Segments)
    requires seg != null ==> list.EndsIn(seg)
    requires |close| <= 2
    modifies if seg == null then {} else {seg, seg.data}
    ensures r == null <==> seg == null || !Fits(str)
    ensures r != null ==> after.EndsIn(r) && list.GrowsTo(after, [QUOTE] + Escape(str) + close)
    ensures r != null ==> r == seg || (fresh(r) && fresh(r.data))
  {
    hide Segments.Linked, Segments.Holds, Segments.Bytes, Escape, Segments.EndsIn, Segments.GrowsTo;
    ghost var begun, quoted;
    r, begun := JsonAppend(seg, [QUOTE], list);
    r, quoted := JsonEncodeStr(r, str, begun);
    r, after := JsonAppend(r, close, quoted);
    if r != null {
      list.GrowsTwice(begun, quoted, [QUOTE], Escape(str));
      list.GrowsTwice(quoted, after, [QUOTE] + Escape(str), close);
    }
  }

  /** `_convert_json`: the text of the tree at the end of the list, or NULL exactly when it is not printable. */
  method ConvertJson(o: WafObject, depth: nat, seg: JsonSegment?, ghost list: Segments)
    returns (r: JsonSegment?, ghost after: Segments)
    requires seg != null ==> list.EndsIn(seg)
    modifies if seg == null then {} else {seg, seg.data}
    ensures r == null <==> seg == null || !Printable(o, depth)
    ensures r != null ==> after.EndsIn(r) && list.GrowsTo(after, Text(o))
    ensures r != null ==> r == seg || (fresh(r) && fresh(r.data))
    decreases o, 1
  {
    if depth > MAX_JSON_DEPTH || seg == null {
      return null, list;
    }
    match o.kind
    case Invalid => return null, list;
    case Signed(v) =>
      DecimalFits(v);
      r, after := JsonAppend(seg, Decimal(v), list);
    case Unsigned(v) =>
      DecimalFits(v);
      r, after := JsonAppend(seg, Decimal(v), list);
    case Str(s) =>
      r, after := AppendQuoted(seg, s, [QUOTE], list);
    case Bool(b) =>
      r, after := JsonAppend(seg, if b then TRUE_TEXT else FALSE_TEXT, list);
    case Array =>
      r, after := ConvertEntries(o.entries, false, depth, seg, list);
    case Map =>
      r, after := ConvertEntries(o.entries, true, depth, seg, list);
    case _ =>
      r, after := seg, list;
  }

  /** The opening or closing bracket of an array, or of a map when the entries are named. */
  function Bracket(named: bool, opening: bool): byte {
    if named then if opening then LBRACE else RBRACE
    else if opening then LBRACKET else RBRACKET
  }

  /** The array case and the map case: the brackets around the entries. */
  method ConvertEntries(es: seq<WafObject>, named: bool, depth: nat, seg: JsonSegment, ghost list: Segments)
    returns (r: JsonSegment?, ghost after: Segments)
    requires list.EndsIn(seg)
    modifies seg, seg.data
    ensures r != null <==> PrintableAll(es, depth + 1, named)
    ensures r != null ==> after.EndsIn(r)
    ensures r != null ==> list.GrowsTo(after, [Bracket(named, true)] + TextEntries(es, named) + [Bracket(named, false)])
    ensures r != null ==> r == seg || (fresh(r) && fresh(r.data))
    decreases es, 2
  {
    r, after := JsonAppend(seg, [Bracket(named, true)], list);
    ghost var begun := after;
    r, after := ConvertAll(es, named, depth + 1, r, after);
    ghost var filled := after;
    r, after := JsonAppend(r, [Bracket(named, false)], after);
    if r != null {
      list.GrowsTwice(begun, filled, [Bracket(named, true)], TextEntries(es, named));
      list.GrowsTwice(filled, after, [Bracket(named, true)] + TextEntries(es, named), [Bracket(named, false)]);
    }
  }

  /** The loop over the entries. */
  method ConvertAll(es: seq<WafObject>, named: bool, depth: nat, seg: JsonSegment, ghost list: Segments)
    returns (r: JsonSegment?, ghost after: Segments)
    requires list.EndsIn(seg)
    modifies seg, seg.data
    ensures r != null <==> PrintableAll(es, depth, named)
    ensures r != null ==> after.EndsIn(r) && list.GrowsTo(after, TextEntries(es, named))
    ensures r != null ==> r == seg || (fresh(r) && fresh(r.data))
    decreases es, 1
  {
    r, after := seg, list;
    for i := 0 to |es|
      invariant r != null ==> after.EndsIn(r) && (r == seg || (fresh(r) && fresh(r.data)))
      invariant r != null && PrintableAll(es[i..], depth, named) <==> PrintableAll(es, depth, named)
      invariant r != null ==> after.segs[0] == list.segs[0]
      invariant r != null ==> after.Bytes() + TextEntries(es[i..], named) == list.Bytes() + TextEntries(es, named)
    {
      ghost var before := after.Bytes();
      TextEntriesStep(es, i, named, before);
      r, after := ConvertEntry(es[i..], named, depth, r, after);
    }
  }

  lemma TextEntriesStep(es: seq<WafObject>, i: nat, named: bool, before: seq<byte>)
    requires i < |es|
    ensures before + (TextName(es[i], named) + Text(es[i]) + Separator(es[i..])) + TextEntries(es[i + 1..], named)
            == before + TextEntries(es[i..], named)
    ensures es[i..][1..] == es[i + 1..]
  {
    assert es[i..][1..] == es[i + 1..];
  }

  /** The loop body: the name of a map entry, the entry, and the comma if another entry follows. */
  method ConvertEntry(es: seq<WafObject>, named: bool, depth: nat, seg: JsonSegment?, ghost list: Segments)
    returns (r: JsonSegment?, ghost after: Segments)
    requires es != []
    requires seg != null ==> list.EndsIn(seg)
    modifies if seg == null then {} else {seg, seg.data}
    ensures r != null <==> seg != null && (named ==> Fits(NameBytes(es[0]))) && Printable(es[0], depth)
    ensures r != null ==> after.EndsIn(r)
    ensures r != null ==> list.GrowsTo(after, TextName(es[0], named) + Text(es[0]) + Separator(es))
    ensures r != null ==> r == seg || (fresh(r) && fresh(r.data))
    decreases es, 0
  {
    r, after := ConvertName(es[0], named, seg, list);
    ghost var withName := after;
    r, after := ConvertJson(es[0], depth, r, after);
    ghost var withText := after;
    if |es| != 1 {
      r, after := JsonAppend(r, [COMMA], after);
    }
    if r != null {
      list.GrowsTwice(withName, withText, TextName(es[0], named), Text(es[0]));
      if |es| != 1 {
        list.GrowsTwice(withText, after, TextName(es[0], named) + Text(es[0]), [COMMA]);
      }
    }
  }

  /** The part of the loop body that maps have and arrays have not. */
  method ConvertName(o: WafObject, named: bool, seg: JsonSegment?, ghost list: Segments)
    returns (r: JsonSegment?, ghost after: Segments)
    requires seg != null ==> list.EndsIn(seg)
    modifies if seg == null then {} else {seg, seg.data}
    ensures r != null <==> seg != null && (named ==> Fits(NameBytes(o)))
    ensures r != null ==> after.EndsIn(r) && list.GrowsTo(after, TextName(o, named))
    ensures r != null ==> r == seg || (fresh(r) && fresh(r.data))
  {
    r, after := seg, list;
    if named {
      r, after := AppendQuoted(seg, NameBytes(o), [QUOTE, COLON], list);
      assert [QUOTE] + Escape(NameBytes(o)) + [QUOTE, COLON] == TextName(o, named);
    }
  }

  /** `output_convert_json`: a list holding the text, exactly when the tree is sound and at most 20 levels deep. */
  method OutputConvertJson(o: WafObject) returns (r: JsonSegment?, ghost list: Segments)
    ensures r != null <==> Sound(o) && Height(o) <= 20
    ensures r != null ==> list.Linked() && list.segs[0] == r && list.Bytes() == Text(o)
  {
    var initialSeg := JsonSegNew(0);
    list := Segments([initialSeg], [[]]);
    assert list.Bytes() == [];
    PrintableIff(o, 0);
    var last;
    last, list := ConvertJson(o, 0, initialSeg, list);
    r := if last != null then initialSeg else null;
  }
}
