/** A reader of the debug text, independent of the printer: it takes each line back to what was printed on it. */
module LineReader {
  import opened Common
  import opened WafObjects
  import opened Records
  import opened Rendering

  /** A line: half its leading spaces, the name before ": ", what is between "<" and ">", what follows after a space. */
  datatype Line = Line(indent: nat, name: Option<seq<byte>>, tag: seq<byte>, value: seq<byte>)

  /** The number of bytes before the first c, or all of them. */
  function Until(t: seq<byte>, c: byte): (n: nat)
    ensures n <= |t| && (n < |t| ==> t[n] == c) && forall i :: 0 <= i < n ==> t[i] != c
  {
    if t == [] || t[0] == c then 0 else 1 + Until(t[1..], c)
  }

  function Spaces(t: seq<byte>): (n: nat)
    ensures n <= |t|
  {
    if t != [] && t[0] == 0x20 then 1 + Spaces(t[1..]) else 0
  }

  /** The number of bytes before the first ": ", or all of them. */
  function UntilColon(t: seq<byte>): (n: nat)
    ensures n <= |t|
  {
    if t == [] then 0
    else if |t| >= 2 && t[0] == 0x3A && t[1] == 0x20 then 0
    else 1 + UntilColon(t[1..])
  }

  /** "<" tag ">" [" " value] */
  function ReadBody(indent: nat, name: Option<seq<byte>>, t: seq<byte>): Line {
    var n := Until(t, 0x3E);
    var after := if n + 2 <= |t| then t[n + 2..] else [];
    Line(indent, name, if n >= 1 then t[1..n] else [], after)
  }

  function ReadLine(t: seq<byte>): Line {
    var k := Spaces(t);
    var s := t[k..];
    if s != [] && s[0] == 0x3C then ReadBody(k / 2, None, s)
    else
      var n := UntilColon(s);
      ReadBody(k / 2, Some(s[..n]), if n + 2 <= |s| then s[n + 2..] else [])
  }

  function ReadLines(t: seq<byte>): seq<Line>
    decreases |t|
  {
    if t == [] then []
    else
      var n := Until(t, 0x0A);
      [ReadLine(t[..n])] + ReadLines(if n < |t| then t[n + 1..] else [])
  }

  // ---------------------------------------------------------------- what should be read

  /** The tags, in ASCII: INVALID, SIGNED, UNSIGNED, STRING, ARRAY, MAP, BOOL, FLOAT, NULL. */
  function TagOf(k: Kind): seq<byte> {
    match k
    case Invalid => [0x49, 0x4E, 0x56, 0x41, 0x4C, 0x49, 0x44]
    case Signed(_) => [0x53, 0x49, 0x47, 0x4E, 0x45, 0x44]
    case Unsigned(_) => [0x55, 0x4E, 0x53, 0x49, 0x47, 0x4E, 0x45, 0x44]
    case Str(_) => [0x53, 0x54, 0x52, 0x49, 0x4E, 0x47]
    case Array => [0x41, 0x52, 0x52, 0x41, 0x59]
    case Map => [0x4D, 0x41, 0x50]
    case Bool(_) => [0x42, 0x4F, 0x4F, 0x4C]
    case Float(_) => [0x46, 0x4C, 0x4F, 0x41, 0x54]
    case Null => [0x4E, 0x55, 0x4C, 0x4C]
  }

  /** What stands after the tag. */
  function ValueOf(k: Kind, rounding: Rounding): seq<byte> {
    match k
    case Signed(v) => Decimal(v)
    case Unsigned(v) => Decimal(v)
    case Str(s) => s
    case Bool(b) => if b then [0x74, 0x72, 0x75, 0x65] else [0x66, 0x61, 0x6C, 0x73, 0x65]
    case Float(bits) => var text := Scientific(rounding(bits)); if |text| <= 25 then text else []
    case _ => []
  }

  /** The lines of a tree: each node before its entries, one level further in, and none below level 25. */
  function Outline(o: WafObject, depth: nat, rounding: Rounding): seq<Line>
    decreases o, 1
  {
    if depth > 25 then []
    else
      [Line(depth, o.name, TagOf(o.kind), ValueOf(o.kind, rounding))]
      + if IsContainer(o.kind) then OutlineAll(o.entries, depth + 1, rounding) else []
  }

  function OutlineAll(os: seq<WafObject>, depth: nat, rounding: Rounding): seq<Line>
    decreases os, 0
  {
    if os == [] then [] else Outline(os[0], depth, rounding) + OutlineAll(os[1..], depth, rounding)
  }

  /** Names that can be told from what is around them: no line end, no ": ", and no space or "<" first. */
  predicate PlainName(n: seq<byte>) {
    && (forall i :: 0 <= i < |n| ==> n[i] != 0x0A)
    && (forall i :: 0 <= i < |n| - 1 ==> !(n[i] == 0x3A && n[i + 1] == 0x20))
    && (n != [] ==> n[0] != 0x20 && n[0] != 0x3C)
  }

  predicate OneLine(s: seq<byte>) {
    forall i :: 0 <= i < |s| ==> s[i] != 0x0A
  }

  /** A tree whose names are such, and whose values have no line end in them. */
  predicate Plain(o: WafObject, rounding: Rounding)
    decreases o, 1
  {
    && (o.name.Some? ==> PlainName(o.name.value)) && OneLine(ValueOf(o.kind, rounding))
    && (IsContainer(o.kind) ==> AllPlain(o.entries, rounding))
  }

  predicate AllPlain(os: seq<WafObject>, rounding: Rounding)
    decreases os, 0
  {
    os != [] ==> Plain(os[0], rounding) && AllPlain(os[1..], rounding)
  }

  // ---------------------------------------------------------------- the printed pieces

  /** The text of a value: its tag in angle brackets, a space and the value if there is any, the end of the line. */
  function Tail(k: Kind, rounding: Rounding): seq<byte> {
    if k.Invalid? || k.Null? || IsContainer(k) then [] else [0x20] + ValueOf(k, rounding)
  }

  // The printer's texts, byte by byte.

  lemma InvalidText()
    ensures Ascii("<INVALID>\n") == [0x3C] + [0x49, 0x4E, 0x56, 0x41, 0x4C, 0x49, 0x44] + [0x3E, 0x0A]
  {
  }

  lemma NullText()
    ensures Ascii("<NULL>\n") == [0x3C] + [0x4E, 0x55, 0x4C, 0x4C] + [0x3E, 0x0A]
  {
  }

  lemma SignedText()
    ensures Ascii("<SIGNED> ") == [0x3C] + [0x53, 0x49, 0x47, 0x4E, 0x45, 0x44] + [0x3E, 0x20]
  {
  }

  lemma UnsignedText()
    ensures Ascii("<UNSIGNED> ") == [0x3C] + [0x55, 0x4E, 0x53, 0x49, 0x47, 0x4E, 0x45, 0x44] + [0x3E, 0x20]
  {
  }

  lemma StringText()
    ensures Ascii("<STRING> ") == [0x3C] + [0x53, 0x54, 0x52, 0x49, 0x4E, 0x47] + [0x3E, 0x20]
  {
  }

  lemma BoolText()
    ensures Ascii("<BOOL> ") == [0x3C] + [0x42, 0x4F, 0x4F, 0x4C] + [0x3E, 0x20]
  {
  }

  lemma FloatText()
    ensures Ascii("<FLOAT> ") == [0x3C] + [0x46, 0x4C, 0x4F, 0x41, 0x54] + [0x3E, 0x20]
  {
  }

  lemma ArrayText()
    ensures Ascii("<ARRAY>\n") == [0x3C] + [0x41, 0x52, 0x52, 0x41, 0x59] + [0x3E, 0x0A]
  {
  }

  lemma MapText()
    ensures Ascii("<MAP>\n") == [0x3C] + [0x4D, 0x41, 0x50] + [0x3E, 0x0A]
  {
  }

  lemma TrueText()
    ensures Ascii("true\n") == [0x74, 0x72, 0x75, 0x65] + [0x0A]
  {
  }

  lemma FalseText()
    ensures Ascii("false\n") == [0x66, 0x61, 0x6C, 0x73, 0x65] + [0x0A]
  {
  }

  lemma LineEndText()
    ensures Ascii("\n") == [0x0A]
  {
  }

  lemma NameEndText()
    ensures Ascii(": ") == [0x3A, 0x20]
  {
  }

  lemma WithValue(tag: seq<byte>, v: seq<byte>)
    ensures [0x3C] + tag + [0x3E, 0x20] + v + [0x0A] == [0x3C] + tag + [0x3E] + ([0x20] + v) + [0x0A]
    ensures [0x3C] + tag + [0x3E, 0x20] + (v + [0x0A]) == [0x3C] + tag + [0x3E] + ([0x20] + v) + [0x0A]
  {
  }

  lemma WithoutValue(tag: seq<byte>)
    ensures [0x3C] + tag + [0x3E, 0x0A] == [0x3C] + tag + [0x3E] + [] + [0x0A]
  {
  }

  lemma LeafTextIs(k: Kind, rounding: Rounding)
    requires !IsContainer(k)
    ensures LeafText(k, rounding) == [0x3C] + TagOf(k) + [0x3E] + Tail(k, rounding) + [0x0A]
  {
    hide Ascii, Shown, Scientific, Decimal;
    LineEndText();
    WithValue(TagOf(k), ValueOf(k, rounding));
    WithoutValue(TagOf(k));
    if k.Invalid? {
      InvalidText();
    } else if k.Null? {
      NullText();
    } else if k.Signed? {
      SignedText();
    } else if k.Unsigned? {
      UnsignedText();
    } else if k.Str? {
      StringText();
    } else if k.Float? {
      FloatText();
      ShownIs(Scientific(rounding(k.bits)));
    } else {
      BoolText();
      TrueText();
      FalseText();
    }
  }

  lemma ShownIs(text: seq<byte>)
    ensures Shown(text, DOUBLE_SCRATCH) == if |text| <= 25 then text else []
  {
  }

  lemma HeadingIs(k: Kind)
    requires IsContainer(k)
    ensures Heading(k) == [0x3C] + TagOf(k) + [0x3E, 0x0A]
  {
    hide Ascii;
    ArrayText();
    MapText();
  }

  /** What is printed before the tag, after the indentation. */
  function NameBefore(name: Option<seq<byte>>): seq<byte> {
    match name case None => [] case Some(n) => n + [0x3A, 0x20]
  }

  /** The line of a node, without its end. */
  function LineOf(o: WafObject, depth: nat, rounding: Rounding): seq<byte> {
    seq(2 * depth, i => 0x20) + (NameBefore(o.name) + ([0x3C] + TagOf(o.kind) + [0x3E] + Tail(o.kind, rounding)))
  }

  /** The text of a node is its line and then, for a container, the text of its entries. */
  lemma RenderedIs(o: WafObject, depth: nat, rounding: Rounding)
    requires depth <= 25
    ensures Render(o, depth, rounding) ==
      LineOf(o, depth, rounding) + ([0x0A] + if IsContainer(o.kind) then RenderAll(o.entries, depth + 1, rounding) else [])
  {
    hide Render, RenderAll, LeafText, Heading, TagOf, Tail, Ascii, Repeated;
    RenderIs(o, depth, rounding);
    NameEndText();
    SpacesAre(2 * depth);
    var inner := RenderAll(o.entries, depth + 1, rounding);
    var indent, name, tag, tail := seq(2 * depth, i => 0x20), NameBefore(o.name), TagOf(o.kind), Tail(o.kind, rounding);
    Grouped(indent, name, tag, tail, if IsContainer(o.kind) then inner else []);
    if IsContainer(o.kind) {
      HeadingIs(o.kind);
      NoTail(o.kind, rounding);
      WithoutTail(indent, name, tag, inner);
    } else {
      LeafTextIs(o.kind, rounding);
    }
  }

  lemma SpacesAre(n: nat)
    ensures Repeated(0x20, n) == seq(n, i => 0x20)
  {
  }

  lemma NoTail(k: Kind, rounding: Rounding)
    ensures IsContainer(k) ==> Tail(k, rounding) == []
  {
  }

  lemma Grouped(a: seq<byte>, b: seq<byte>, tag: seq<byte>, tail: seq<byte>, more: seq<byte>)
    ensures a + (b + ([0x3C] + tag + [0x3E] + tail)) + ([0x0A] + more) == a + b + ([0x3C] + tag + [0x3E] + tail + [0x0A]) + more
  {
  }

  lemma WithoutTail(a: seq<byte>, b: seq<byte>, tag: seq<byte>, more: seq<byte>)
    ensures a + b + ([0x3C] + tag + [0x3E] + [] + [0x0A]) + more == a + b + ([0x3C] + tag + [0x3E, 0x0A] + more)
  {
  }

  /** A named node is printed with its name: the indentation, the name, a colon and a space. */
  lemma NameComesFirst(o: WafObject, n: seq<byte>, depth: nat, rounding: Rounding)
    requires o.name == Some(n) && depth <= 25
    ensures seq(2 * depth, i => 0x20) + n + [0x3A, 0x20] <= Render(o, depth, rounding)
  {
    hide Render, RenderAll, TagOf, Tail;
    RenderedIs(o, depth, rounding);
    var indent := seq(2 * depth, i => 0x20);
    assert indent + n + [0x3A, 0x20] == indent + (n + [0x3A, 0x20]);
  }

  // ---------------------------------------------------------------- reading back what was printed

  lemma {:induction false} UntilAt(a: seq<byte>, c: byte, b: seq<byte>)
    requires forall i :: 0 <= i < |a| ==> a[i] != c
    ensures Until(a + ([c] + b), c) == |a|
  {
    if a != [] {
      UntilAt(a[1..], c, b);
      assert (a + ([c] + b))[1..] == a[1..] + ([c] + b);
    } else {
      assert a + ([c] + b) == [c] + b;
    }
  }

  lemma {:induction false} SpacesThen(n: nat, s: seq<byte>)
    requires s != [] && s[0] != 0x20
    ensures Spaces(seq(n, i => 0x20) + s) == n
  {
    var t := seq(n, i => 0x20) + s;
    if n > 0 {
      SpacesThen(n - 1, s);
      assert t[1..] == seq(n - 1, i => 0x20) + s;
    } else {
      assert t == s;
    }
  }

  lemma {:induction false} UntilColonAt(n: seq<byte>, b: seq<byte>)
    requires forall i :: 0 <= i < |n| - 1 ==> !(n[i] == 0x3A && n[i + 1] == 0x20)
    ensures UntilColon(n + ([0x3A, 0x20] + b)) == |n|
  {
    var t := n + ([0x3A, 0x20] + b);
    if n != [] {
      assert t[1..] == n[1..] + ([0x3A, 0x20] + b);
      assert t[0] == n[0] && t[1] == if |n| > 1 then n[1] else 0x3A;
      UntilColonAt(n[1..], b);
    } else {
      assert t == [0x3A, 0x20] + b;
    }
  }

  lemma TagsAreLetters(k: Kind)
    ensures TagOf(k) != [] && forall i :: 0 <= i < |TagOf(k)| ==> TagOf(k)[i] != 0x3E && TagOf(k)[i] != 0x0A
  {
  }

  lemma ReadBodyIs(indent: nat, name: Option<seq<byte>>, tag: seq<byte>, tail: seq<byte>)
    requires forall i :: 0 <= i < |tag| ==> tag[i] != 0x3E
    ensures ReadBody(indent, name, [0x3C] + tag + [0x3E] + tail) == Line(indent, name, tag, if tail == [] then [] else tail[1..])
  {
    hide Until;
    var t := [0x3C] + tag + [0x3E] + tail;
    UntilAt([0x3C] + tag, 0x3E, tail);
    Associate([0x3C] + tag, [0x3E], tail);
    var n := |tag| + 1;
    assert t[1..n] == tag;
    assert tail != [] ==> t[n + 2..] == tail[1..];
  }

  lemma ReadBodyOf(indent: nat, name: Option<seq<byte>>, k: Kind, rounding: Rounding)
    ensures ReadBody(indent, name, [0x3C] + TagOf(k) + [0x3E] + Tail(k, rounding)) ==
      Line(indent, name, TagOf(k), ValueOf(k, rounding))
  {
    hide TagOf, ValueOf, ReadBody;
    TagsAreLetters(k);
    NoValue(k, rounding);
    ReadBodyIs(indent, name, TagOf(k), Tail(k, rounding));
  }

  lemma NoValue(k: Kind, rounding: Rounding)
    ensures k.Invalid? || k.Null? || IsContainer(k) ==> ValueOf(k, rounding) == []
  {
  }

  lemma ReadIndented(n: nat, s: seq<byte>)
    requires s != [] && s[0] != 0x20
    ensures Spaces(seq(n, i => 0x20) + s) == n && (seq(n, i => 0x20) + s)[n..] == s
  {
    SpacesThen(n, s);
  }

  lemma ReadUnnamed(depth: nat, s: seq<byte>)
    requires s != [] && s[0] == 0x3C
    ensures ReadLine(seq(2 * depth, i => 0x20) + s) == ReadBody(depth, None, s)
  {
    hide ReadBody, Spaces;
    ReadIndented(2 * depth, s);
  }

  lemma ReadNamed(depth: nat, n: seq<byte>, body: seq<byte>)
    requires PlainName(n)
    ensures ReadLine(seq(2 * depth, i => 0x20) + (n + [0x3A, 0x20] + body)) == ReadBody(depth, Some(n), body)
  {
    hide ReadBody, Spaces, UntilColon;
    var s := n + [0x3A, 0x20] + body;
    assert s[0] == if n == [] then 0x3A else n[0];
    ReadIndented(2 * depth, s);
    UntilColonAt(n, body);
    Associate(n, [0x3A, 0x20], body);
    assert s[..|n|] == n && s[|n| + 2..] == body;
  }

  lemma ReadLineOf(o: WafObject, depth: nat, rounding: Rounding)
    requires o.name.Some? ==> PlainName(o.name.value)
    ensures ReadLine(LineOf(o, depth, rounding)) == Line(depth, o.name, TagOf(o.kind), ValueOf(o.kind, rounding))
  {
    hide TagOf, ValueOf, Tail, ReadBody, ReadLine, PlainName;
    ReadBodyOf(depth, o.name, o.kind, rounding);
    var body := [0x3C] + TagOf(o.kind) + [0x3E] + Tail(o.kind, rounding);
    if o.name.Some? {
      ReadNamed(depth, o.name.value, body);
    } else {
      ReadUnnamed(depth, body);
      assert [] + body == body;
    }
  }

  lemma ReadLinesThen(l: seq<byte>, rest: seq<byte>)
    requires OneLine(l)
    ensures ReadLines(l + ([0x0A] + rest)) == [ReadLine(l)] + ReadLines(rest)
  {
    hide ReadLine;
    var t := l + ([0x0A] + rest);
    UntilAt(l, 0x0A, rest);
    assert t[..|l|] == l && t[|l| + 1..] == rest;
  }

  lemma LineIsOne(o: WafObject, depth: nat, rounding: Rounding)
    requires (o.name.Some? ==> PlainName(o.name.value)) && OneLine(ValueOf(o.kind, rounding))
    ensures OneLine(LineOf(o, depth, rounding))
  {
    hide TagOf, ValueOf;
    TagsAreLetters(o.kind);
  }

  /** The lines of what is inside a node. */
  function InnerOutline(o: WafObject, depth: nat, rounding: Rounding): seq<Line> {
    if IsContainer(o.kind) then OutlineAll(o.entries, depth + 1, rounding) else []
  }

  function InnerText(o: WafObject, depth: nat, rounding: Rounding): seq<byte> {
    if IsContainer(o.kind) then RenderAll(o.entries, depth + 1, rounding) else []
  }

  lemma OutlineIs(o: WafObject, depth: nat, rounding: Rounding)
    requires depth <= 25
    ensures Outline(o, depth, rounding) ==
      [Line(depth, o.name, TagOf(o.kind), ValueOf(o.kind, rounding))] + InnerOutline(o, depth, rounding)
  {
    hide OutlineAll, TagOf, ValueOf;
  }

  lemma ReadNode(o: WafObject, depth: nat, rounding: Rounding, rest: seq<byte>)
    requires Plain(o, rounding) && depth <= 25
    ensures ReadLines(Render(o, depth, rounding) + rest) ==
      [Line(depth, o.name, TagOf(o.kind), ValueOf(o.kind, rounding))] + ReadLines(InnerText(o, depth, rounding) + rest)
  {
    hide ReadLines, ReadLine, Render, RenderAll, LineOf, TagOf, ValueOf, PlainName, OneLine;
    var line, inner := LineOf(o, depth, rounding), InnerText(o, depth, rounding);
    RenderedIs(o, depth, rounding);
    LineIsOne(o, depth, rounding);
    ReadLinesThen(line, inner + rest);
    ReadLineOf(o, depth, rounding);
    assert line + ([0x0A] + inner) + rest == line + ([0x0A] + (inner + rest));
  }

  /** The text of a tree, read back, whatever follows. */
  lemma {:induction false} ReadThen(o: WafObject, depth: nat, rounding: Rounding, rest: seq<byte>)
    requires Plain(o, rounding)
    ensures ReadLines(Render(o, depth, rounding) + rest) == Outline(o, depth, rounding) + ReadLines(rest)
    decreases o, 2
  {
    hide ReadLines, Render, Outline, InnerText, InnerOutline, Plain;
    if depth <= 25 {
      ReadNode(o, depth, rounding, rest);
      OutlineIs(o, depth, rounding);
      ReadInner(o, depth, rounding, rest);
    } else {
      Below25(o, depth, rounding);
      assert [] + rest == rest && [] + ReadLines(rest) == ReadLines(rest);
    }
  }

  lemma {:induction false} ReadInner(o: WafObject, depth: nat, rounding: Rounding, rest: seq<byte>)
    requires Plain(o, rounding)
    ensures ReadLines(InnerText(o, depth, rounding) + rest) == InnerOutline(o, depth, rounding) + ReadLines(rest)
    decreases o, 1
  {
    hide ReadLines, RenderAll, OutlineAll, AllPlain, PlainName, OneLine;
    if IsContainer(o.kind) {
      ReadAllThen(o.entries, depth + 1, rounding, rest);
    } else {
      assert [] + rest == rest && [] + ReadLines(rest) == ReadLines(rest);
    }
  }

  lemma Below25(o: WafObject, depth: nat, rounding: Rounding)
    ensures depth > 25 ==> Render(o, depth, rounding) == [] && Outline(o, depth, rounding) == []
  {
  }

  lemma {:induction false} ReadAllThen(os: seq<WafObject>, depth: nat, rounding: Rounding, rest: seq<byte>)
    requires AllPlain(os, rounding)
    ensures ReadLines(RenderAll(os, depth, rounding) + rest) == OutlineAll(os, depth, rounding) + ReadLines(rest)
    decreases os, 0
  {
    hide ReadLines, Render, Outline, Plain;
    if os != [] {
      var first, more := Render(os[0], depth, rounding), RenderAll(os[1..], depth, rounding);
      ReadThen(os[0], depth, rounding, more + rest);
      ReadAllThen(os[1..], depth, rounding, rest);
      assert first + more + rest == first + (more + rest);
    } else {
      assert [] + rest == rest;
    }
  }

  /**
    Reading the debug text of a tree gives its nodes in order, each with its level, name, tag and value, when no name or
    value can be taken for something else.
    */
  lemma ReadRendered(o: WafObject, rounding: Rounding)
    requires Plain(o, rounding)
    ensures ReadLines(Render(o, 0, rounding)) == Outline(o, 0, rounding)
  {
    hide ReadLines, Render, Outline, Plain;
    ReadThen(o, 0, rounding, []);
    NoLines();
    assert Render(o, 0, rounding) + [] == Render(o, 0, rounding);
  }

  lemma NoLines()
    ensures ReadLines([]) == []
  {
  }

  /** A record of a type there is not: its line reads UNKNOWN. */
  lemma UnknownLine(m: seq<byte>, a: nat, depth: nat, rounding: Rounding)
    requires depth <= 25 && a + 40 <= |m| && DecodeName(m, ReadRecord(m, a)).Some?
    requires ReadRecord(m, a).typ !in {0, 1, 2, 4, 8, 16, 32, 64, 128}
    ensures RenderAt(m, a, depth, rounding) ==
      Some(seq(2 * depth, i => 0x20) + NameBefore(DecodeName(m, ReadRecord(m, a)).value)
           + [0x3C, 0x55, 0x4E, 0x4B, 0x4E, 0x4F, 0x57, 0x4E, 0x3E, 0x0A])
  {
    hide ReadRecord, DecodeName, Ascii, Repeated;
    UnknownText();
    NameEndText();
    SpacesAre(2 * depth);
  }

  lemma UnknownText()
    ensures Ascii("<UNKNOWN>\n") == [0x3C, 0x55, 0x4E, 0x4B, 0x4E, 0x4F, 0x57, 0x4E, 0x3E, 0x0A]
  {
  }
}
