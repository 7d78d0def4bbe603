/** The JSON text as the Java caller receives it: decoding the printed bytes decodes the strings and nothing else. */
module JsonDecode {
  import opened Common
  import opened Unicode
  import opened WafObjects
  import opened JsonText
  import opened JsonUnits
  import opened JsonPrinter
  import opened Transcoder
  import opened JsonTranscoder
  import JsonParser

  /** Bytes as code units of the same value. */
  function Widen(s: seq<byte>): (r: seq<unit16>)
    ensures |r| == |s| && forall i :: 0 <= i < |s| ==> r[i] == s[i]
  {
    seq(|s|, i requires 0 <= i < |s| => s[i])
  }

  // ---------------------------------------------------------------- ASCII and the rest

  predicate IsAscii(s: seq<byte>) {
    forall i :: 0 <= i < |s| ==> s[i] < 0x80
  }

  /** s is empty or starts with an ASCII byte, so that anything may precede it. */
  predicate StartsAscii(s: seq<byte>) {
    s == [] || s[0] < 0x80
  }

  lemma DecodeFirst(s: seq<byte>)
    requires s != [] && s[0] < 0x80
    ensures Utf8ToUtf16(s) == [s[0]] + Utf8ToUtf16(s[1..])
  {
  }

  lemma {:induction false} DecodeAscii(a: seq<byte>)
    requires IsAscii(a)
    ensures Utf8ToUtf16(a) == Widen(a)
  {
    hide Utf8ToUtf16;
    if a != [] {
      DecodeFirst(a);
      DecodeAscii(a[1..]);
    } else {
      DecodeEmpty();
    }
  }

  lemma DecodeThen(a: seq<byte>, b: seq<byte>)
    requires StartsAscii(b)
    ensures Utf8ToUtf16(a + b) == Utf8ToUtf16(a) + Utf8ToUtf16(b)
  {
    hide Utf8ToUtf16;
    DecodeConcat(a, b);
  }

  /** The number of bytes before the first ASCII byte. */
  function HighRun(s: seq<byte>): (n: nat)
    ensures n <= |s| && (forall i :: 0 <= i < n ==> s[i] >= 0x80) && (n < |s| ==> s[n] < 0x80)
  {
    if s == [] || s[0] < 0x80 then 0 else 1 + HighRun(s[1..])
  }

  predicate AllHigh(s: seq<unit16>) {
    forall i :: 0 <= i < |s| ==> s[i] >= 0x80
  }

  lemma StepIsHigh(s: seq<byte>)
    requires s != [] && s[0] >= 0x80
    ensures AllHigh(DecodedStep(s))
  {
    var st := NextUtf8(s);
    NextUtf8Exact(s);
    if st.ok {
      assert WriteUtf8(st.cp)[0] == s[..st.adv][0] == s[0];
      assert st.cp >= 0x80;
    }
  }

  /** Bytes above ASCII decode to code units above ASCII. */
  lemma {:induction false} DecodeHigh(s: seq<byte>)
    requires forall i :: 0 <= i < |s| ==> s[i] >= 0x80
    ensures AllHigh(Utf8ToUtf16(s))
  {
    if s != [] {
      StepIsHigh(s);
      StepsAreScalar8(s);
      DecodeHigh(s[NextUtf8(s).adv..]);
    }
  }

  lemma HighByteFirst(c: byte, rest: seq<byte>)
    requires c >= 0x80
    ensures Escape([c] + rest) == [c] + Escape(rest)
  {
    assert ([c] + rest)[1..] == rest;
  }

  lemma {:induction false} EscapeHigh(p: seq<byte>, r: seq<byte>)
    requires forall i :: 0 <= i < |p| ==> p[i] >= 0x80
    ensures Escape(p + r) == p + Escape(r)
  {
    hide *;
    if p == [] {
      assert p + r == r;
    } else {
      EscapeHigh(p[1..], r);
      HighByteFirst(p[0], p[1..] + r);
      assert [p[0]] + (p[1..] + r) == p + r;
      assert [p[0]] + (p[1..] + Escape(r)) == p + Escape(r);
    }
  }

  lemma HighUnitFirst(c: unit16, rest: seq<unit16>)
    requires c >= 0x80
    ensures Escape16([c] + rest) == [c] + Escape16(rest)
  {
    assert ([c] + rest)[1..] == rest;
  }

  lemma {:induction false} Escape16High(p: seq<unit16>, r: seq<unit16>)
    requires AllHigh(p)
    ensures Escape16(p + r) == p + Escape16(r)
  {
    hide Escape16, EscapeUnit, EscapeByte, Widen;
    if p == [] {
      assert p + r == r;
    } else {
      Escape16High(p[1..], r);
      HighUnitFirst(p[0], p[1..] + r);
      assert [p[0]] + (p[1..] + r) == p + r;
      assert [p[0]] + (p[1..] + Escape16(r)) == p + Escape16(r);
    }
  }

  lemma EscapeStartsAscii(s: seq<byte>)
    requires StartsAscii(s)
    ensures StartsAscii(Escape(s))
  {
  }

  /** Escaping commutes with lenient decoding, for arbitrary bytes. */
  lemma {:induction false} DecodeEscape(s: seq<byte>)
    ensures Utf8ToUtf16(Escape(s)) == Escape16(Utf8ToUtf16(s))
    decreases |s|
  {
    if s == [] {
    } else if s[0] < 0x80 {
      DecodeEscapeAscii(s);
      DecodeEscape(s[1..]);
    } else {
      hide Utf8ToUtf16, Escape, Escape16;
      var n := HighRun(s);
      var p, r := s[..n], s[n..];
      assert s == p + r;
      DecodeEscape(r);
      DecodeHigh(p);
      EscapeHigh(p, r);
      EscapeStartsAscii(r);
      DecodeThen(p, r);
      DecodeThen(p, Escape(r));
      Escape16High(Utf8ToUtf16(p), Utf8ToUtf16(r));
    }
  }

  lemma DecodeEscapeAscii(s: seq<byte>)
    requires s != [] && s[0] < 0x80
    ensures Utf8ToUtf16(Escape(s)) == EscapeUnit(s[0]) + Utf8ToUtf16(Escape(s[1..]))
    ensures Escape16(Utf8ToUtf16(s)) == EscapeUnit(s[0]) + Escape16(Utf8ToUtf16(s[1..]))
  {
    hide *;
    EscapedIsAscii(s[0]);
    EscapeFirst(s);
    DecodeFirst(s);
    Escape16First(s[0], Utf8ToUtf16(s[1..]));
    DecodeAsciiThen(EscapeByte(s[0]), Escape(s[1..]));
  }

  lemma EscapedIsAscii(c: byte)
    requires c < 0x80
    ensures IsAscii(EscapeByte(c)) && EscapeUnit(c) == Widen(EscapeByte(c))
  {
  }

  lemma EscapeFirst(s: seq<byte>)
    requires s != []
    ensures Escape(s) == EscapeByte(s[0]) + Escape(s[1..])
  {
    hide EscapeByte;
  }

  lemma Escape16First(c: unit16, rest: seq<unit16>)
    ensures Escape16([c] + rest) == EscapeUnit(c) + Escape16(rest)
  {
    assert ([c] + rest)[1..] == rest;
  }

  lemma {:induction false} DecodeAsciiThen(a: seq<byte>, t: seq<byte>)
    requires IsAscii(a)
    ensures Utf8ToUtf16(a + t) == Widen(a) + Utf8ToUtf16(t)
  {
    hide Utf8ToUtf16;
    if a == [] {
      assert a + t == t;
    } else {
      assert (a + t)[1..] == a[1..] + t;
      DecodeFirst(a + t);
      DecodeAsciiThen(a[1..], t);
      assert Widen(a) == [a[0]] + Widen(a[1..]);
    }
  }

  // ---------------------------------------------------------------- the whole text

  lemma DecodeQuoted(s: seq<byte>)
    ensures Utf8ToUtf16(Quoted(s)) == Quoted16(Utf8ToUtf16(s))
  {
    hide Utf8ToUtf16, Escape, Escape16;
    DecodeEscape(s);
    DecodeAsciiThen([QUOTE], Escape(s) + [QUOTE]);
    DecodeThen(Escape(s), [QUOTE]);
    DecodeAscii([QUOTE]);
    assert [QUOTE] + Escape(s) + [QUOTE] == [QUOTE] + (Escape(s) + [QUOTE]);
    assert Widen([QUOTE]) == [QUOTE];
    var inner := Escape16(Utf8ToUtf16(s));
    assert [QUOTE] + inner + [QUOTE] == [QUOTE] + (inner + [QUOTE]);
  }

  lemma DecimalIsAscii(v: int)
    ensures IsAscii(Decimal(v)) && Decimal(v) != []
  {
    hide Digits;
  }

  lemma DecodeScalarText(o: WafObject)
    requires !IsContainer(o.kind)
    ensures Utf8ToUtf16(Text(o)) == TextIn(Java, o) && StartsAscii(Text(o))
  {
    hide Utf8ToUtf16, Quoted16, Decimal, Escape;
    match o.kind
    case Signed(v) =>
      DecimalIsAscii(v);
      DecodeAscii(Decimal(v));
    case Unsigned(v) =>
      DecimalIsAscii(v);
      DecodeAscii(Decimal(v));
    case Str(s) => DecodeQuoted(s);
    case Bool(b) => DecodeAscii(Text(o));
    case _ => DecodeEmpty();
  }

  lemma DecodeName(o: WafObject, named: bool)
    ensures Utf8ToUtf16(TextName(o, named)) == NameIn(Java, o, named) && StartsAscii(TextName(o, named))
  {
    hide Utf8ToUtf16, Quoted16, Escape;
    if named {
      DecodeQuoted(NameBytes(o));
      DecodeThen(Quoted(NameBytes(o)), [COLON]);
      DecodeAscii([COLON]);
      assert Widen([COLON]) == [COLON];
    } else {
      DecodeEmpty();
    }
  }

  lemma DecodeSeparator(es: seq<WafObject>)
    ensures Utf8ToUtf16(Separator(es)) == Widen(Separator(es)) && StartsAscii(Separator(es))
  {
    hide Utf8ToUtf16;
    DecodeAscii(Separator(es));
  }

  lemma DecodeFour(a: seq<byte>, b: seq<byte>, c: seq<byte>, d: seq<byte>)
    requires StartsAscii(a) && StartsAscii(b) && StartsAscii(c) && StartsAscii(d)
    ensures Utf8ToUtf16(a + b + c + d) == Utf8ToUtf16(a) + Utf8ToUtf16(b) + Utf8ToUtf16(c) + Utf8ToUtf16(d)
    ensures StartsAscii(a + b + c + d)
  {
    hide Utf8ToUtf16;
    DecodeThen(a + b + c, d);
    DecodeThen(a + b, c);
    DecodeThen(a, b);
  }

  lemma DecodeBracketed(open: byte, inner: seq<byte>, close: byte)
    requires open < 0x80 && close < 0x80
    ensures Utf8ToUtf16([open] + inner + [close]) == [open] + Utf8ToUtf16(inner) + [close]
  {
    hide Utf8ToUtf16;
    DecodeThen([open] + inner, [close]);
    DecodeAsciiThen([open], inner);
    DecodeAscii([close]);
    assert Widen([open]) == [open] && Widen([close]) == [close];
  }

  /** The decoded text of a tree is its text in code units: no string, however ill-formed, disturbs what is around it. */
  lemma {:induction false} DecodeText(o: WafObject)
    ensures Utf8ToUtf16(Text(o)) == TextIn(Java, o) && StartsAscii(Text(o))
    decreases o, 1
  {
    hide Utf8ToUtf16, TextEntries, EntriesIn, Quoted, Quoted16, Decimal;
    if o.kind.Array? {
      DecodeTextEntries(o.entries, false);
      DecodeBracketed(LBRACKET, TextEntries(o.entries, false), RBRACKET);
    } else if o.kind.Map? {
      DecodeTextEntries(o.entries, true);
      DecodeBracketed(LBRACE, TextEntries(o.entries, true), RBRACE);
    } else {
      DecodeScalarText(o);
    }
  }

  lemma {:induction false} DecodeTextEntries(es: seq<WafObject>, named: bool)
    ensures Utf8ToUtf16(TextEntries(es, named)) == EntriesIn(Java, es, named) && StartsAscii(TextEntries(es, named))
    decreases es, 0
  {
    hide *;
    EntriesAre(es, named);
    if es == [] {
      DecodeEmpty();
      NothingStarts();
    } else {
      DecodeName(es[0], named);
      DecodeText(es[0]);
      DecodeSeparator(es);
      DecodeTextEntries(es[1..], named);
      DecodeFour(TextName(es[0], named), Text(es[0]), Separator(es), TextEntries(es[1..], named));
    }
  }

  lemma JStringIs(s: seq<byte>)
    ensures JStringOf(s).JString? ==> JStringOf(s).units == Utf8ToUtf16(s)
  {
    hide Utf8ToUtf16;
  }

  lemma NothingStarts()
    ensures StartsAscii([])
  {
  }

  lemma EntriesAre(es: seq<WafObject>, named: bool)
    ensures es == [] ==> TextEntries(es, named) == [] && EntriesIn(Java, es, named) == []
    ensures es != [] ==>
      && TextEntries(es, named) == TextName(es[0], named) + Text(es[0]) + Separator(es) + TextEntries(es[1..], named)
      && EntriesIn(Java, es, named) ==
         NameIn(Java, es[0], named) + TextIn(Java, es[0]) + Separator(es) + EntriesIn(Java, es[1..], named)
  {
    hide Text, TextIn, TextName, NameIn, Separator;
  }

  /** Printing a tree and reading the segments as a Java string; without segments the caller throws. */
  method ResultString(o: WafObject) returns (r: Option<JString>)
    ensures r.Some? <==> Sound(o) && Height(o) <= 20
    ensures r.Some? ==> r.value == JStringOf(Text(o))
    ensures r.Some? && r.value.JString? ==> r.value.units == TextIn(Java, o)
    ensures r.Some? && r.value.JString? ==>
      && JsonParser.ParseJson(Java, r.value.units) == JsonParser.Reading(Java, o)
      && (JsonParser.HasValue(o) <==> JsonParser.ParseJson(Java, r.value.units) == Some(JsonParser.Value(Java, o)))
  {
    hide *;
    JStringIs(Text(o));
    DecodeText(o);
    JsonParser.StringThenParse(o);
    var seg, list := OutputConvertJson(o);
    if seg == null {
      return None;
    }
    var js := JavaJsonToJString(seg, list);
    return Some(js);
  }
}
