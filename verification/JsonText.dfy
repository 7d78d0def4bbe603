/** What json.h and output.c write for a string and for a tree, as values. */
module JsonText {
  import opened Common
  import opened WafObjects

  const MAX_JSON_DEPTH: nat := 20

  const QUOTE: byte := 0x22
  const BACKSLASH: byte := 0x5C
  const COMMA: byte := 0x2C
  const COLON: byte := 0x3A
  const LBRACKET: byte := 0x5B
  const RBRACKET: byte := 0x5D
  const LBRACE: byte := 0x7B
  const RBRACE: byte := 0x7D

  const TRUE_TEXT: seq<byte> := [0x74, 0x72, 0x75, 0x65]
  const FALSE_TEXT: seq<byte> := [0x66, 0x61, 0x6C, 0x73, 0x65]

  /** An upper-case hexadecimal digit, as `%02X` writes it. */
  function HexDigit(d: int): byte
    requires 0 <= d < 16
  {
    if d < 10 then 0x30 + d else 0x41 + d - 10
  }

  predicate NeedsEscape(c: byte) {
    c == BACKSLASH || c == QUOTE || c < 0x20
  }

  function EscapeByte(c: byte): (r: seq<byte>)
    ensures |r| == if c == BACKSLASH || c == QUOTE then 2 else if c < 0x20 then 6 else 1
    ensures !NeedsEscape(c) <==> r == [c]
  {
    if c == BACKSLASH || c == QUOTE then [BACKSLASH, c]
    else if c < 0x20 then [BACKSLASH, 0x75, 0x30, 0x30, HexDigit(c / 16), HexDigit(c % 16)]
    else [c]
  }

  /** A control character is a backslash, "u00" and two digits, of which letters are capitals. */
  lemma ControlEscape(c: byte)
    requires c < 0x20
    ensures EscapeByte(c) ==
      [0x5C, 0x75, 0x30, 0x30, 0x30 + c / 16, if c % 16 < 10 then 0x30 + c % 16 else 0x41 + c % 16 - 10]
  {
  }

  function Escape(s: seq<byte>): seq<byte> {
    if s == [] then [] else EscapeByte(s[0]) + Escape(s[1..])
  }

  /** The test of the memcpy shortcut, equal lengths, holds exactly when escaping changes nothing. */
  lemma {:induction false} EscapeShortcut(s: seq<byte>)
    ensures |Escape(s)| >= |s|
    ensures |Escape(s)| == |s| <==> Escape(s) == s
    ensures |Escape(s)| == |s| <==> forall i :: 0 <= i < |s| ==> !NeedsEscape(s[i])
  {
    if s != [] {
      EscapeShortcut(s[1..]);
      assert s == [s[0]] + s[1..];
      assert (forall i :: 0 <= i < |s| ==> !NeedsEscape(s[i])) <==>
             !NeedsEscape(s[0]) && forall i :: 0 <= i < |s[1..]| ==> !NeedsEscape(s[1..][i]);
    }
  }

  function Quoted(s: seq<byte>): seq<byte> {
    [QUOTE] + Escape(s) + [QUOTE]
  }

  /** The whole text of a tree. FLOAT, NULL and INVALID nodes have none. */
  function Text(o: WafObject): seq<byte>
    decreases o, 1
  {
    match o.kind
    case Signed(v) => Decimal(v)
    case Unsigned(v) => Decimal(v)
    case Str(s) => Quoted(s)
    case Bool(b) => if b then TRUE_TEXT else FALSE_TEXT
    case Array => [LBRACKET] + TextEntries(o.entries, false) + [RBRACKET]
    case Map => [LBRACE] + TextEntries(o.entries, true) + [RBRACE]
    case _ => []
  }

  /** The text between the brackets: each entry, after its name in a map, and before a comma if another follows. */
  function TextEntries(es: seq<WafObject>, named: bool): seq<byte>
    decreases es, 0
  {
    if es == [] then []
    else TextName(es[0], named) + Text(es[0]) + Separator(es) + TextEntries(es[1..], named)
  }

  function TextName(o: WafObject, named: bool): seq<byte> {
    if named then Quoted(NameBytes(o)) + [COLON] else []
  }

  /** The comma after every entry but the last. */
  function Separator(es: seq<WafObject>): seq<byte> {
    if |es| == 1 then [] else [COMMA]
  }

  /** A string whose escaped form a segment can hold. */
  predicate Fits(s: seq<byte>) {
    |Escape(s)| <= UINT32_MAX
  }

  /** The trees that are printed when met at the given depth. */
  predicate Printable(o: WafObject, depth: nat)
    decreases o, 1
  {
    && depth <= MAX_JSON_DEPTH
    && match o.kind
       case Invalid => false
       case Str(s) => Fits(s)
       case Array => PrintableAll(o.entries, depth + 1, false)
       case Map => PrintableAll(o.entries, depth + 1, true)
       case _ => true
  }

  predicate PrintableAll(es: seq<WafObject>, depth: nat, named: bool)
    decreases es, 0
  {
    es != [] ==>
      && (named ==> Fits(NameBytes(es[0])))
      && Printable(es[0], depth)
      && PrintableAll(es[1..], depth, named)
  }

  /** No INVALID node, and every string and every name of a map entry fits. */
  predicate Sound(o: WafObject)
    decreases o, 1
  {
    match o.kind
    case Invalid => false
    case Str(s) => Fits(s)
    case Array => SoundAll(o.entries, false)
    case Map => SoundAll(o.entries, true)
    case _ => true
  }

  predicate SoundAll(es: seq<WafObject>, named: bool)
    decreases es, 0
  {
    es != [] ==> (named ==> Fits(NameBytes(es[0]))) && Sound(es[0]) && SoundAll(es[1..], named)
  }

  /** Exactly the sound trees with no node deeper than level 20 are printed. */
  lemma {:induction false} PrintableIff(o: WafObject, depth: nat)
    ensures Printable(o, depth) <==> Sound(o) && depth + Height(o) <= 20
    decreases o, 1
  {
    if IsContainer(o.kind) {
      PrintableAllIff(o.entries, depth + 1, o.kind.Map?);
    }
  }

  lemma {:induction false} PrintableAllIff(es: seq<WafObject>, depth: nat, named: bool)
    ensures PrintableAll(es, depth, named) <==>
            SoundAll(es, named) && (es != [] ==> depth + HeightAll(es) <= 20)
    decreases es, 0
  {
    if es != [] {
      PrintableIff(es[0], depth);
      PrintableAllIff(es[1..], depth, named);
    }
  }
}
