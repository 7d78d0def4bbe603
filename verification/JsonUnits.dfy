/**
  The JSON text of a tree as code units, in either of the two forms it takes: the bytes that are printed, one unit each,
  and the Java string they become.
  */
module JsonUnits {
  import opened Common
  import opened Unicode
  import opened WafObjects
  import opened JsonText

  /** The printed bytes, or the Java string. */
  datatype Form = Printed | Java

  /** A string of the tree in the given form: its bytes, or their lenient decoding. */
  function StringIn(f: Form, s: seq<byte>): seq<unit16> {
    match f case Printed => s case Java => Utf8ToUtf16(s)
  }

  function EscapeUnit(c: unit16): (r: seq<unit16>)
    ensures r != []
  {
    if c < 0x80 then EscapeByte(c) else [c]
  }

  function Escape16(s: seq<unit16>): seq<unit16> {
    if s == [] then [] else EscapeUnit(s[0]) + Escape16(s[1..])
  }

  function Quoted16(s: seq<unit16>): seq<unit16> {
    [QUOTE] + Escape16(s) + [QUOTE]
  }

  function TextIn(f: Form, o: WafObject): seq<unit16>
    decreases o, 1
  {
    match o.kind
    case Signed(v) => Decimal(v)
    case Unsigned(v) => Decimal(v)
    case Str(s) => Quoted16(StringIn(f, s))
    case Bool(b) => if b then TRUE_TEXT else FALSE_TEXT
    case Array => [LBRACKET] + EntriesIn(f, o.entries, false) + [RBRACKET]
    case Map => [LBRACE] + EntriesIn(f, o.entries, true) + [RBRACE]
    case _ => []
  }

  function EntriesIn(f: Form, es: seq<WafObject>, named: bool): seq<unit16>
    decreases es, 0
  {
    if es == [] then []
    else NameIn(f, es[0], named) + TextIn(f, es[0]) + Separator(es) + EntriesIn(f, es[1..], named)
  }

  function NameIn(f: Form, o: WafObject, named: bool): seq<unit16> {
    if named then Quoted16(StringIn(f, NameBytes(o))) + [COLON] else []
  }

  // ---------------------------------------------------------------- the printed form is what is printed

  lemma {:induction false} EscapeIsPrinted(s: seq<byte>)
    ensures Escape16(s) == Escape(s)
  {
    if s != [] {
      EscapeIsPrinted(s[1..]);
    }
  }

  lemma QuotedIsPrinted(s: seq<byte>)
    ensures Quoted16(StringIn(Printed, s)) == Quoted(s)
  {
    EscapeIsPrinted(s);
    hide Escape, Escape16;
  }

  lemma {:induction false} TextIsPrinted(o: WafObject)
    ensures TextIn(Printed, o) == Text(o)
    decreases o, 1
  {
    hide TextEntries, EntriesIn, Quoted, Quoted16, Decimal;
    match o.kind
    case Str(s) => QuotedIsPrinted(s);
    case Array => EntriesArePrinted(o.entries, false);
    case Map => EntriesArePrinted(o.entries, true);
    case _ =>
  }

  lemma {:induction false} EntriesArePrinted(es: seq<WafObject>, named: bool)
    ensures EntriesIn(Printed, es, named) == TextEntries(es, named)
    decreases es, 0
  {
    hide Text, TextIn, Quoted, Quoted16, Separator;
    if es != [] {
      QuotedIsPrinted(NameBytes(es[0]));
      TextIsPrinted(es[0]);
      EntriesArePrinted(es[1..], named);
    }
  }
}
