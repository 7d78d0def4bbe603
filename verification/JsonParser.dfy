/**
  A reader of JSON texts after RFC 8259, independent of the printer: white space, the literals, strings with every
  escape of section 7, integers, arrays and objects. It takes a printed tree back to its value.
  */
module JsonParser {
  import opened Common
  import opened Unicode
  import opened WafObjects
  import opened JsonText
  import opened JsonUnits

  datatype Json =
    | JNull
    | JBool(truth: bool)
    | JNumber(n: int)
    | JString(text: seq<unit16>)
    | JArray(items: seq<Json>)
    | JObject(members: seq<Member>)

  datatype Member = Member(key: seq<unit16>, value: Json)

  /** A value and what follows it, or a syntax error. */
  datatype Parsed<+T> = Bad | Ok(value: T, rest: seq<unit16>)

  // ---------------------------------------------------------------- tokens

  function SkipWs(s: seq<unit16>): (r: seq<unit16>)
    ensures |r| <= |s|
  {
    if s != [] && s[0] in {0x20, 0x09, 0x0A, 0x0D} then SkipWs(s[1..]) else s
  }

  predicate IsDigit(c: unit16) { 0x30 <= c <= 0x39 }

  function DigitRun(s: seq<unit16>): (n: nat)
    ensures n <= |s|
  {
    if s != [] && IsDigit(s[0]) then 1 + DigitRun(s[1..]) else 0
  }

  function DigitValue(c: unit16): nat {
    if IsDigit(c) then c - 0x30 else 0
  }

  function FromDigits(s: seq<unit16>): nat {
    if s == [] then 0 else FromDigits(s[..|s| - 1]) * 10 + DigitValue(s[|s| - 1])
  }

  /** An unsigned integer without leading zeros; fractions and exponents are not accepted. */
  function ParseNat(s: seq<unit16>): (r: Parsed<int>)
    ensures r.Ok? ==> |r.rest| < |s|
  {
    var n := DigitRun(s);
    if n == 0 || (n > 1 && s[0] == 0x30) then Bad
    else if n < |s| && s[n] in {0x2E, 0x65, 0x45} then Bad
    else Ok(FromDigits(s[..n]), s[n..])
  }

  function ParseNumber(s: seq<unit16>): (r: Parsed<Json>)
    ensures r.Ok? ==> |r.rest| < |s|
  {
    if s != [] && s[0] == 0x2D then
      match ParseNat(s[1..]) case Bad => Bad case Ok(n, rest) => Ok(JNumber(-n), rest)
    else
      match ParseNat(s) case Bad => Bad case Ok(n, rest) => Ok(JNumber(n), rest)
  }

  function HexValue(c: unit16): Option<int> {
    if 0x30 <= c <= 0x39 then Some(c as int - 0x30)
    else if 0x41 <= c <= 0x46 then Some(c as int - 0x37)
    else if 0x61 <= c <= 0x66 then Some(c as int - 0x57)
    else None
  }

  /** The code unit of a \uXXXX at the start of s. */
  function ParseUnit(s: seq<unit16>): (r: Option<unit16>)
    ensures r.Some? ==> |s| >= 6
  {
    if |s| < 6 || s[0] != 0x5C || s[1] != 0x75 then None
    else
      match (HexValue(s[2]), HexValue(s[3]), HexValue(s[4]), HexValue(s[5]))
      case (Some(a), Some(b), Some(c), Some(d)) =>
        var u := a * 0x1000 + b * 0x100 + c * 0x10 + d;
        if 0 <= u < 0x1_0000 then Some(u) else None
      case _ => None
  }

  /**
    A \uXXXX, or a surrogate pair of them: among bytes it stands for the UTF-8 form of the code point, among the code
    units of a Java string for the code unit.
    */
  function ParseUnicodeEscape(f: Form, s: seq<unit16>): (r: Parsed<seq<unit16>>)
    ensures r.Ok? ==> |r.rest| < |s|
  {
    match ParseUnit(s)
    case None => Bad
    case Some(u) =>
      if f.Java? then Ok([u], s[6..])
      else if Trail16(u) then Bad
      else if Lead16(u) then
        match ParseUnit(s[6..])
        case None => Bad
        case Some(v) => if Trail16(v) then Ok(WriteUtf8(PairValue(u, v)), s[12..]) else Bad
      else Ok(WriteUtf8(u), s[6..])
  }

  /** One character of a string: an unescaped one or an escape. */
  function ParseChar(f: Form, s: seq<unit16>): (r: Parsed<seq<unit16>>)
    ensures r.Ok? ==> |r.rest| < |s|
  {
    if s == [] || s[0] < 0x20 then Bad
    else if s[0] != 0x5C then Ok([s[0]], s[1..])
    else if |s| < 2 then Bad
    else if s[1] in {0x22, 0x5C, 0x2F} then Ok([s[1]], s[2..])
    else if s[1] == 0x62 then Ok([0x08], s[2..])
    else if s[1] == 0x66 then Ok([0x0C], s[2..])
    else if s[1] == 0x6E then Ok([0x0A], s[2..])
    else if s[1] == 0x72 then Ok([0x0D], s[2..])
    else if s[1] == 0x74 then Ok([0x09], s[2..])
    else ParseUnicodeEscape(f, s)
  }

  /** The characters of a string up to its closing quotation mark. */
  function ParseChars(f: Form, s: seq<unit16>): (r: Parsed<seq<unit16>>)
    ensures r.Ok? ==> |r.rest| < |s|
    decreases |s|
  {
    if s == [] then Bad
    else if s[0] == 0x22 then Ok([], s[1..])
    else
      match ParseChar(f, s)
      case Bad => Bad
      case Ok(c, rest) =>
        match ParseChars(f, rest) case Bad => Bad case Ok(cs, after) => Ok(c + cs, after)
  }

  // ---------------------------------------------------------------- values

  function ArrayOf(p: Parsed<seq<Json>>): Parsed<Json> {
    match p case Bad => Bad case Ok(items, rest) => Ok(JArray(items), rest)
  }

  function ObjectOf(p: Parsed<seq<Member>>): Parsed<Json> {
    match p case Bad => Bad case Ok(ms, rest) => Ok(JObject(ms), rest)
  }

  /** A first item and those read after it. */
  function Preceded<T>(x: T, p: Parsed<seq<T>>): Parsed<seq<T>> {
    match p case Bad => Bad case Ok(xs, rest) => Ok([x] + xs, rest)
  }

  function ParseValue(f: Form, t: seq<unit16>): (r: Parsed<Json>)
    ensures r.Ok? ==> |r.rest| < |t|
    decreases |t|, 1
  {
    var s := SkipWs(t);
    if s == [] then Bad
    else if s[0] == 0x22 then
      match ParseChars(f, s[1..]) case Bad => Bad case Ok(cs, rest) => Ok(JString(cs), rest)
    else if s[0] == 0x5B then
      var u := SkipWs(s[1..]);
      if u != [] && u[0] == 0x5D then Ok(JArray([]), u[1..])
      else ArrayOf(ParseItems(f, s[1..]))
    else if s[0] == 0x7B then
      var u := SkipWs(s[1..]);
      if u != [] && u[0] == 0x7D then Ok(JObject([]), u[1..])
      else ObjectOf(ParseMembers(f, s[1..]))
    else if [0x74, 0x72, 0x75, 0x65] <= s then Ok(JBool(true), s[4..])
    else if [0x66, 0x61, 0x6C, 0x73, 0x65] <= s then Ok(JBool(false), s[5..])
    else if [0x6E, 0x75, 0x6C, 0x6C] <= s then Ok(JNull, s[4..])
    else ParseNumber(s)
  }

  /** value *( "," value ) "]" */
  function ParseItems(f: Form, s: seq<unit16>): (r: Parsed<seq<Json>>)
    ensures r.Ok? ==> |r.rest| < |s|
    decreases |s|, 2
  {
    match ParseValue(f, s)
    case Bad => Bad
    case Ok(v, rest) =>
      var u := SkipWs(rest);
      if u == [] then Bad
      else if u[0] == 0x5D then Ok([v], u[1..])
      else if u[0] != 0x2C then Bad
      else Preceded(v, ParseItems(f, u[1..]))
  }

  /** string ":" */
  function ParseKey(f: Form, t: seq<unit16>): (r: Parsed<seq<unit16>>)
    ensures r.Ok? ==> |r.rest| < |t|
  {
    var s := SkipWs(t);
    if s == [] || s[0] != 0x22 then Bad
    else
      match ParseChars(f, s[1..])
      case Bad => Bad
      case Ok(key, rest) =>
        var u := SkipWs(rest);
        if u == [] || u[0] != 0x3A then Bad else Ok(key, u[1..])
  }

  /** member *( "," member ) "}" */
  function ParseMembers(f: Form, s: seq<unit16>): (r: Parsed<seq<Member>>)
    ensures r.Ok? ==> |r.rest| < |s|
    decreases |s|, 2
  {
    match ParseKey(f, s)
    case Bad => Bad
    case Ok(key, afterKey) =>
      match ParseValue(f, afterKey)
      case Bad => Bad
      case Ok(v, rest) =>
        var u := SkipWs(rest);
        if u == [] then Bad
        else if u[0] == 0x7D then Ok([Member(key, v)], u[1..])
        else if u[0] != 0x2C then Bad
        else Preceded(Member(key, v), ParseMembers(f, u[1..]))
  }

  /** A whole JSON text: a value with nothing but white space after it. */
  function ParseJson(f: Form, s: seq<unit16>): Option<Json> {
    match ParseValue(f, s)
    case Bad => None
    case Ok(v, rest) => if SkipWs(rest) == [] then Some(v) else None
  }

  // ---------------------------------------------------------------- the value of a tree

  /** The trees JSON has a value for: no INVALID, FLOAT or NULL node in them. */
  predicate HasValue(o: WafObject)
    decreases o, 1
  {
    && !o.kind.Invalid? && !o.kind.Float? && !o.kind.Null?
    && (IsContainer(o.kind) ==> AllHaveValues(o.entries))
  }

  predicate AllHaveValues(es: seq<WafObject>)
    decreases es, 0
  {
    es != [] ==> HasValue(es[0]) && AllHaveValues(es[1..])
  }

  function Value(f: Form, o: WafObject): Json
    decreases o, 1
  {
    match o.kind
    case Signed(v) => JNumber(v)
    case Unsigned(v) => JNumber(v)
    case Str(s) => JString(StringIn(f, s))
    case Bool(b) => JBool(b)
    case Array => JArray(ItemValues(f, o.entries))
    case Map => JObject(MemberValues(f, o.entries))
    case _ => JNull
  }

  function ItemValues(f: Form, es: seq<WafObject>): seq<Json>
    decreases es, 0
  {
    if es == [] then [] else [Value(f, es[0])] + ItemValues(f, es[1..])
  }

  function MemberValues(f: Form, es: seq<WafObject>): seq<Member>
    decreases es, 0
  {
    if es == [] then [] else [Member(StringIn(f, NameBytes(es[0])), Value(f, es[0]))] + MemberValues(f, es[1..])
  }

  /** Nodes that are printed as nothing at all. */
  predicate Blank(o: WafObject) {
    o.kind.Invalid? || o.kind.Float? || o.kind.Null?
  }

  /**
    What a reader makes of the text of a tree. A blank is a syntax error where a value has to be, except as the only
    element of an array, whose text is that of an empty one.
    */
  function Reading(f: Form, o: WafObject): Option<Json>
    decreases o, 1
  {
    if Blank(o) then None
    else if o.kind.Array? then
      if |o.entries| == 1 && Blank(o.entries[0]) then Some(JArray([]))
      else match ReadingItems(f, o.entries) case None => None case Some(items) => Some(JArray(items))
    else if o.kind.Map? then
      match ReadingMembers(f, o.entries) case None => None case Some(ms) => Some(JObject(ms))
    else Some(Value(f, o))
  }

  function ReadingItems(f: Form, es: seq<WafObject>): (r: Option<seq<Json>>)
    ensures r.Some? ==> |r.value| == |es|
    decreases es, 0
  {
    if es == [] then Some([])
    else
      match (Reading(f, es[0]), ReadingItems(f, es[1..]))
      case (Some(v), Some(vs)) => Some([v] + vs)
      case _ => None
  }

  function ReadingMembers(f: Form, es: seq<WafObject>): (r: Option<seq<Member>>)
    ensures r.Some? ==> |r.value| == |es|
    decreases es, 0
  {
    if es == [] then Some([])
    else
      match (Reading(f, es[0]), ReadingMembers(f, es[1..]))
      case (Some(v), Some(ms)) => Some([Member(StringIn(f, NameBytes(es[0])), v)] + ms)
      case _ => None
  }

  /** The reader gets the value of a tree exactly if the tree has one: what is blank changes the value or breaks the text. */
  lemma {:induction false} ReadingIsValueIff(f: Form, o: WafObject)
    ensures Reading(f, o) == Some(Value(f, o)) <==> HasValue(o)
    decreases o, 1
  {
    hide ReadingItems, ReadingMembers, ItemValues, MemberValues, AllHaveValues, StringIn;
    if o.kind.Array? {
      ReadingItemsAreValuesIff(f, o.entries);
      SingleBlank(f, o.entries);
    } else if o.kind.Map? {
      ReadingMembersAreValuesIff(f, o.entries);
    }
  }

  lemma SingleBlank(f: Form, es: seq<WafObject>)
    ensures |es| == 1 && Blank(es[0]) ==> ItemValues(f, es) != [] && !AllHaveValues(es)
  {
  }

  lemma {:induction false} ReadingItemsAreValuesIff(f: Form, es: seq<WafObject>)
    ensures ReadingItems(f, es) == Some(ItemValues(f, es)) <==> AllHaveValues(es)
    decreases es, 0
  {
    hide Reading, Value, HasValue;
    if es != [] {
      ReadingIsValueIff(f, es[0]);
      ReadingItemsAreValuesIff(f, es[1..]);
      var items := ReadingItems(f, es[1..]);
      if Reading(f, es[0]).Some? && items.Some? {
        SameFront(Reading(f, es[0]).value, items.value, Value(f, es[0]), ItemValues(f, es[1..]));
      }
    }
  }

  lemma {:induction false} ReadingMembersAreValuesIff(f: Form, es: seq<WafObject>)
    ensures ReadingMembers(f, es) == Some(MemberValues(f, es)) <==> AllHaveValues(es)
    decreases es, 0
  {
    hide Reading, Value, HasValue, StringIn;
    if es != [] {
      ReadingIsValueIff(f, es[0]);
      ReadingMembersAreValuesIff(f, es[1..]);
      var key, ms := StringIn(f, NameBytes(es[0])), ReadingMembers(f, es[1..]);
      if Reading(f, es[0]).Some? && ms.Some? {
        SameFront(Member(key, Reading(f, es[0]).value), ms.value, Member(key, Value(f, es[0])), MemberValues(f, es[1..]));
      }
    }
  }

  lemma SameFront<T>(x: T, a: seq<T>, y: T, b: seq<T>)
    ensures [x] + a == [y] + b <==> x == y && a == b
  {
    assert ([x] + a)[1..] == a && ([y] + b)[1..] == b && ([x] + a)[0] == x && ([y] + b)[0] == y;
  }

  // ---------------------------------------------------------------- reading back what was printed

  /** A value that is read, with what follows it, or an error. */
  function Then<T>(r: Option<T>, rest: seq<unit16>): Parsed<T> {
    match r case None => Bad case Some(v) => Ok(v, rest)
  }

  lemma {:induction false} FromDigitsOf(n: nat)
    ensures FromDigits(Digits(n)) == n
  {
    if n >= 10 {
      FromDigitsOf(n / 10);
      var d := Digits(n);
      assert d[..|d| - 1] == Digits(n / 10);
    } else {
      assert Digits(n)[..0] == [];
    }
  }

  /** What may follow a number: nothing that could continue it. */
  predicate EndsNumber(rest: seq<unit16>) {
    rest == [] || (!IsDigit(rest[0]) && rest[0] !in {0x2E, 0x65, 0x45})
  }

  lemma {:induction false} DigitRunOf(ds: seq<unit16>, rest: seq<unit16>)
    requires EndsNumber(rest) && forall i :: 0 <= i < |ds| ==> IsDigit(ds[i])
    ensures DigitRun(ds + rest) == |ds|
  {
    if ds == [] {
      assert ds + rest == rest;
    } else {
      assert (ds + rest)[1..] == ds[1..] + rest;
      DigitRunOf(ds[1..], rest);
    }
  }

  lemma ParseNatOf(n: nat, rest: seq<unit16>)
    requires EndsNumber(rest)
    ensures ParseNat(Digits(n) + rest) == Ok(n, rest)
  {
    var ds := Digits(n);
    DigitRunOf(ds, rest);
    FromDigitsOf(n);
    assert (ds + rest)[..|ds|] == ds && (ds + rest)[|ds|..] == rest;
    if n == 0 {
      assert |ds| == 1;
    }
  }

  // Which rule the first byte selects.

  lemma SelectNumber(f: Form, s: seq<unit16>)
    requires s != [] && (s[0] == MINUS || IsDigit(s[0]))
    ensures ParseValue(f, s) == ParseNumber(s)
  {
    assert s[0] != 0x74 && s[0] != 0x66 && s[0] != 0x6E;
  }

  lemma SelectString(f: Form, s: seq<unit16>)
    requires s != [] && s[0] == QUOTE && ParseChars(f, s[1..]).Ok?
    ensures ParseValue(f, s) == Ok(JString(ParseChars(f, s[1..]).value), ParseChars(f, s[1..]).rest)
  {
  }

  lemma SelectNegative(f: Form, t: seq<unit16>, n: int, rest: seq<unit16>)
    requires ParseNat(t) == Ok(n, rest)
    ensures ParseValue(f, [MINUS] + t) == Ok(JNumber(-n), rest)
  {
    var s := [MINUS] + t;
    SelectNumber(f, s);
    assert s[1..] == t;
  }

  lemma SelectPositive(f: Form, s: seq<unit16>, n: int, rest: seq<unit16>)
    requires ParseNat(s) == Ok(n, rest)
    ensures ParseValue(f, s) == Ok(JNumber(n), rest)
  {
    SelectNumber(f, s);
  }

  /** A printed number, read back. */
  lemma ParseDecimal(f: Form, v: int, rest: seq<unit16>)
    requires EndsNumber(rest)
    ensures ParseValue(f, Decimal(v) + rest) == Ok(JNumber(v), rest)
  {
    hide *;
    DecimalIs(v);
    if v < 0 {
      ParseNatOf(-v, rest);
      SelectNegative(f, Digits(-v) + rest, -v, rest);
      Associate([MINUS], Digits(-v), rest);
    } else {
      ParseNatOf(v, rest);
      SelectPositive(f, Digits(v) + rest, v, rest);
    }
  }

  lemma DecimalIs(v: int)
    ensures Decimal(v) == if v < 0 then [MINUS] + Digits(-v) else Digits(v)
  {
    hide Digits;
  }

  /** One printed character, read back. */
  lemma ParseCharOf(f: Form, c: unit16, rest: seq<unit16>)
    ensures ParseChar(f, EscapeUnit(c) + rest) == Ok([c], rest)
  {
    var s := EscapeUnit(c) + rest;
    assert s[|EscapeUnit(c)|..] == rest;
    if c < 0x20 {
      HexOf(c / 16);
      HexOf(c % 16);
      assert ParseUnit(s) == Some(c);
      assert WriteUtf8(c) == [c];
    }
  }

  lemma HexOf(d: int)
    requires 0 <= d < 16
    ensures HexValue(HexDigit(d)) == Some(d)
  {
  }

  /** A printed string, read back: section 7 undoes the escaping of every byte string. */
  lemma {:induction false} ParseCharsOf(f: Form, s: seq<unit16>, rest: seq<unit16>)
    ensures ParseChars(f, Escape16(s) + [QUOTE] + rest) == Ok(s, rest)
  {
    hide *;
    if s == [] {
      ParseEnd(f, s, rest);
    } else {
      var after := Escape16(s[1..]) + [QUOTE] + rest;
      ParseCharOf(f, s[0], after);
      ParseCharsOf(f, s[1..], rest);
      ParseRound(f, s, after, s[1..], rest);
      assert s == [s[0]] + s[1..];
    }
  }

  lemma ParseEnd(f: Form, s: seq<unit16>, rest: seq<unit16>)
    requires s == []
    ensures ParseChars(f, Escape16(s) + [QUOTE] + rest) == Ok(s, rest)
  {
    var t := Escape16(s) + [QUOTE] + rest;
    assert t[0] == QUOTE && t[1..] == rest;
  }

  lemma ParseRound(f: Form, s: seq<unit16>, after: seq<unit16>, cs: seq<unit16>, rest: seq<unit16>)
    requires s != [] && after == Escape16(s[1..]) + [QUOTE] + rest
    requires ParseChar(f, EscapeUnit(s[0]) + after) == Ok([s[0]], after) && ParseChars(f, after) == Ok(cs, rest)
    ensures ParseChars(f, Escape16(s) + [QUOTE] + rest) == Ok([s[0]] + cs, rest)
  {
    hide *;
    var e, t := EscapeUnit(s[0]), Escape16(s) + [QUOTE] + rest;
    EscapeStep(s);
    Associate(e, Escape16(s[1..]), [QUOTE]);
    Associate(e, Escape16(s[1..]) + [QUOTE], rest);
    EscapeFirst(s[0]);
    assert (e + after)[0] == e[0];
    ParseCharsStep(f, e + after, [s[0]], after, cs, rest);
  }

  lemma EscapeStep(s: seq<unit16>)
    requires s != []
    ensures Escape16(s) == EscapeUnit(s[0]) + Escape16(s[1..])
  {
    hide EscapeUnit;
  }

  lemma ParseCharsStep(f: Form, t: seq<unit16>, c: seq<unit16>, after: seq<unit16>, cs: seq<unit16>, rest: seq<unit16>)
    requires t != [] && t[0] != QUOTE && ParseChar(f, t) == Ok(c, after) && ParseChars(f, after) == Ok(cs, rest)
    ensures ParseChars(f, t) == Ok(c + cs, rest)
  {
    hide ParseChar;
  }

  lemma EscapeFirst(c: unit16)
    ensures EscapeUnit(c)[0] != QUOTE
  {
  }

  lemma ParseQuoted(f: Form, s: seq<unit16>, rest: seq<unit16>)
    ensures ParseValue(f, Quoted16(s) + rest) == Ok(JString(s), rest)
  {
    var t := Quoted16(s) + rest;
    assert t[1..] == Escape16(s) + [QUOTE] + rest;
    ParseCharsOf(f, s, rest);
    SelectString(f, t);
  }

  lemma ParseName(f: Form, s: seq<unit16>, rest: seq<unit16>)
    ensures ParseKey(f, Quoted16(s) + [COLON] + rest) == Ok(s, rest)
  {
    var u := Quoted16(s) + [COLON] + rest;
    assert u[1..] == Escape16(s) + [QUOTE] + ([COLON] + rest);
    ParseCharsOf(f, s, [COLON] + rest);
    assert ([COLON] + rest)[1..] == rest;
  }

  lemma ParseBool(f: Form, b: bool, rest: seq<unit16>)
    ensures ParseValue(f, (if b then TRUE_TEXT else FALSE_TEXT) + rest) == Ok(JBool(b), rest)
  {
    var t := if b then TRUE_TEXT else FALSE_TEXT;
    var s := t + rest;
    assert s[|t|..] == rest && s[0] == t[0] && FALSE_TEXT[0] != TRUE_TEXT[0];
  }

  /** The first byte of a text: never white space, never a closing bracket. */
  lemma TextFirst(f: Form, o: WafObject)
    requires !Blank(o)
    ensures var t := TextIn(f, o); t != [] && t[0] !in {0x20, 0x09, 0x0A, 0x0D, RBRACKET, RBRACE}
  {
  }

  /** What stands where a value ends: the end of the text, a comma or a closing bracket. */
  predicate EndsValue(rest: seq<unit16>) {
    rest == [] || rest[0] in {COMMA, RBRACKET, RBRACE}
  }

  lemma NoValue(f: Form, rest: seq<unit16>)
    requires EndsValue(rest)
    ensures ParseValue(f, rest) == Bad && EndsNumber(rest)
  {
    if rest != [] {
      assert rest[0] != 0x74 && rest[0] != 0x66 && rest[0] != 0x6E;
    }
  }

  /** The text of any tree, read back, whatever follows it. */
  lemma {:induction false} ParseReading(f: Form, o: WafObject, rest: seq<unit16>)
    requires EndsNumber(rest) && (Blank(o) ==> EndsValue(rest))
    ensures ParseValue(f, TextIn(f, o) + rest) == Then(Reading(f, o), rest)
    decreases o, 1
  {
    hide ParseValue, Reading, TextIn, EndsNumber, EndsValue, StringIn, Quoted16, EntriesIn, Decimal;
    TextAndReading(f, o);
    match o.kind
    case Signed(v) => ParseDecimal(f, v, rest);
    case Unsigned(v) => ParseDecimal(f, v, rest);
    case Str(s) => ParseQuoted(f, StringIn(f, s), rest);
    case Bool(b) => ParseBool(f, b, rest);
    case Array => ParseArrayText(f, o, rest);
    case Map => ParseObjectText(f, o, rest);
    case _ =>
      NoValue(f, rest);
      assert [] + rest == rest;
  }

  lemma TextAndReading(f: Form, o: WafObject)
    ensures Blank(o) ==> TextIn(f, o) == [] && Reading(f, o) == None
    ensures o.kind.Signed? ==> TextIn(f, o) == Decimal(o.kind.signed) && Reading(f, o) == Some(JNumber(o.kind.signed))
    ensures o.kind.Unsigned? ==> TextIn(f, o) == Decimal(o.kind.unsigned) && Reading(f, o) == Some(JNumber(o.kind.unsigned))
    ensures o.kind.Str? ==>
      TextIn(f, o) == Quoted16(StringIn(f, o.kind.text)) && Reading(f, o) == Some(JString(StringIn(f, o.kind.text)))
    ensures o.kind.Bool? ==>
      TextIn(f, o) == (if o.kind.truth then TRUE_TEXT else FALSE_TEXT) && Reading(f, o) == Some(JBool(o.kind.truth))
    ensures o.kind.Array? ==> TextIn(f, o) == [LBRACKET] + EntriesIn(f, o.entries, false) + [RBRACKET]
    ensures o.kind.Map? ==> TextIn(f, o) == [LBRACE] + EntriesIn(f, o.entries, true) + [RBRACE]
  {
    hide Quoted16, EntriesIn, ReadingItems, ReadingMembers;
  }

  lemma SelectItems(f: Form, s: seq<unit16>)
    requires |s| > 1 && s[0] == LBRACKET && SkipWs(s[1..]) == s[1..]
    ensures s[1] == RBRACKET ==> ParseValue(f, s) == Ok(JArray([]), s[2..])
    ensures s[1] != RBRACKET ==>
      ParseValue(f, s) == ArrayOf(ParseItems(f, s[1..]))
  {
    assert s[1..][1..] == s[2..];
  }

  lemma SelectMembers(f: Form, s: seq<unit16>)
    requires |s| > 1 && s[0] == LBRACE && SkipWs(s[1..]) == s[1..]
    ensures s[1] == RBRACE ==> ParseValue(f, s) == Ok(JObject([]), s[2..])
    ensures s[1] != RBRACE ==>
      ParseValue(f, s) == ObjectOf(ParseMembers(f, s[1..]))
  {
    assert s[1..][1..] == s[2..];
  }

  /** After the opening bracket: the closing one comes next only without elements, or with a single blank. */
  lemma InsideArray(f: Form, es: seq<WafObject>, rest: seq<unit16>)
    ensures var inside := EntriesIn(f, es, false) + [RBRACKET] + rest;
      && inside != [] && SkipWs(inside) == inside
      && (inside[0] == RBRACKET <==> es == [] || (|es| == 1 && Blank(es[0])))
      && (inside[0] == RBRACKET ==> inside[1..] == rest)
  {
    hide TextIn, EntriesIn;
    EntriesFirst(f, es);
    var inside := EntriesIn(f, es, false) + [RBRACKET] + rest;
    if es == [] || (|es| == 1 && Blank(es[0])) {
      assert inside == [RBRACKET] + rest;
    } else {
      assert inside[0] == EntriesIn(f, es, false)[0];
    }
  }

  /** What the entries of an array start with. */
  lemma EntriesFirst(f: Form, es: seq<WafObject>)
    ensures var t := EntriesIn(f, es, false);
      if es == [] || (|es| == 1 && Blank(es[0])) then t == []
      else t != [] && t[0] !in {0x20, 0x09, 0x0A, 0x0D, RBRACKET}
  {
    hide TextIn;
    if es != [] {
      BlankText(f, es[0]);
      assert |es| == 1 ==> es[1..] == [];
    }
  }

  lemma BlankText(f: Form, o: WafObject)
    ensures if Blank(o) then TextIn(f, o) == [] else TextIn(f, o) != []
    ensures !Blank(o) ==> TextIn(f, o)[0] !in {0x20, 0x09, 0x0A, 0x0D, RBRACKET}
  {
    if !Blank(o) {
      TextFirst(f, o);
    }
  }

  lemma {:induction false} ParseArrayText(f: Form, o: WafObject, rest: seq<unit16>)
    requires o.kind.Array?
    ensures ParseValue(f, [LBRACKET] + EntriesIn(f, o.entries, false) + [RBRACKET] + rest) == Then(Reading(f, o), rest)
    decreases o.entries, 2
  {
    hide ParseValue, EntriesIn, TextIn, ParseItems, ReadingItems, SkipWs, EndsNumber;
    var es := o.entries;
    var inside := EntriesIn(f, es, false) + [RBRACKET] + rest;
    var s := [LBRACKET] + EntriesIn(f, es, false) + [RBRACKET] + rest;
    assert s[1..] == inside;
    InsideArray(f, es, rest);
    if es != [] {
      ParseItemsText(f, es, rest);
    } else {
      NothingRead(f, es);
    }
    SelectItems(f, s);
  }

  lemma NothingRead(f: Form, es: seq<WafObject>)
    ensures es == [] ==> ReadingItems(f, es) == Some([]) && ReadingMembers(f, es) == Some([])
  {
  }

  lemma InsideObject(f: Form, es: seq<WafObject>, rest: seq<unit16>)
    ensures var inside := EntriesIn(f, es, true) + [RBRACE] + rest;
      && inside != [] && SkipWs(inside) == inside
      && (inside[0] == RBRACE <==> es == [])
      && (inside[0] == RBRACE ==> inside[1..] == rest)
  {
    var inside := EntriesIn(f, es, true) + [RBRACE] + rest;
    if es == [] {
      assert inside == [RBRACE] + rest;
    } else {
      assert inside[0] == QUOTE;
    }
  }

  lemma {:induction false} ParseObjectText(f: Form, o: WafObject, rest: seq<unit16>)
    requires o.kind.Map?
    ensures ParseValue(f, [LBRACE] + EntriesIn(f, o.entries, true) + [RBRACE] + rest) == Then(Reading(f, o), rest)
    decreases o.entries, 2
  {
    hide ParseValue, EntriesIn, TextIn, ParseMembers, ReadingMembers, SkipWs, EndsNumber;
    var es := o.entries;
    var inside := EntriesIn(f, es, true) + [RBRACE] + rest;
    var s := [LBRACE] + EntriesIn(f, es, true) + [RBRACE] + rest;
    assert s[1..] == inside;
    InsideObject(f, es, rest);
    if es != [] {
      ParseMembersText(f, es, rest);
    } else {
      NothingRead(f, es);
    }
    SelectMembers(f, s);
  }

  /** What is left of the entries after the first of them, up to the closing bracket and beyond. */
  function After(f: Form, es: seq<WafObject>, named: bool, close: unit16, rest: seq<unit16>): seq<unit16>
    requires es != []
  {
    if |es| == 1 then [close] + rest else [COMMA] + (EntriesIn(f, es[1..], named) + [close] + rest)
  }

  lemma SplitFirst(f: Form, es: seq<WafObject>, named: bool, close: unit16, rest: seq<unit16>)
    requires es != []
    ensures EntriesIn(f, es, named) + [close] + rest
            == NameIn(f, es[0], named) + (TextIn(f, es[0]) + After(f, es, named, close, rest))
  {
    hide *;
    var name, text, more := NameIn(f, es[0], named), TextIn(f, es[0]), EntriesIn(f, es[1..], named);
    FirstEntry(f, es, named);
    AfterIs(f, es, named, close, rest);
    Regroup(name, text, Separator(es), more, [close] + rest);
    Associate(EntriesIn(f, es, named), [close], rest);
  }

  lemma FirstEntry(f: Form, es: seq<WafObject>, named: bool)
    requires es != []
    ensures EntriesIn(f, es, named) ==
            NameIn(f, es[0], named) + TextIn(f, es[0]) + Separator(es) + EntriesIn(f, es[1..], named)
  {
    hide NameIn, TextIn, Separator;
  }

  lemma AfterIs(f: Form, es: seq<WafObject>, named: bool, close: unit16, rest: seq<unit16>)
    requires es != []
    ensures After(f, es, named, close, rest) == Separator(es) + EntriesIn(f, es[1..], named) + ([close] + rest)
  {
    hide NameIn, TextIn;
    var more := EntriesIn(f, es[1..], named);
    if |es| == 1 {
      assert es[1..] == [];
      assert more == [];
    } else {
      Associate(more, [close], rest);
      Associate([COMMA], more, [close] + rest);
    }
  }

  lemma Regroup(a: seq<unit16>, b: seq<unit16>, c: seq<unit16>, d: seq<unit16>, e: seq<unit16>)
    ensures a + b + c + d + e == a + (b + (c + d + e))
  {
  }

  // One round of the two loops of the grammar.

  lemma ItemsRound(f: Form, s: seq<unit16>, v: Json, after: seq<unit16>)
    requires ParseValue(f, s) == Ok(v, after) && after != []
    ensures after[0] == RBRACKET ==> ParseItems(f, s) == Ok([v], after[1..])
    ensures after[0] == COMMA ==>
      ParseItems(f, s) == Preceded(v, ParseItems(f, after[1..]))
  {
    assert after[0] in {RBRACKET, COMMA} ==> SkipWs(after) == after;
  }

  lemma MembersRound(f: Form, s: seq<unit16>, key: seq<unit16>, t: seq<unit16>, v: Json, after: seq<unit16>)
    requires ParseKey(f, s) == Ok(key, t) && ParseValue(f, t) == Ok(v, after) && after != []
    ensures after[0] == RBRACE ==> ParseMembers(f, s) == Ok([Member(key, v)], after[1..])
    ensures after[0] == COMMA ==>
      ParseMembers(f, s) == Preceded(Member(key, v), ParseMembers(f, after[1..]))
  {
    assert after[0] in {RBRACE, COMMA} ==> SkipWs(after) == after;
  }

  lemma RoundFails(f: Form, s: seq<unit16>, key: seq<unit16>, t: seq<unit16>)
    ensures ParseValue(f, s) == Bad ==> ParseItems(f, s) == Bad
    ensures ParseKey(f, s) == Ok(key, t) && ParseValue(f, t) == Bad ==> ParseMembers(f, s) == Bad
  {
    hide ParseValue, ParseKey;
  }

  lemma AfterFirst(f: Form, es: seq<WafObject>, named: bool, close: unit16, rest: seq<unit16>)
    requires es != [] && close in {RBRACKET, RBRACE}
    ensures var after := After(f, es, named, close, rest);
      && after != [] && EndsNumber(after) && EndsValue(after)
      && (if |es| == 1 then after[0] == close && after[1..] == rest && es[1..] == []
          else after[0] == COMMA && after[1..] == EntriesIn(f, es[1..], named) + [close] + rest)
  {
  }

  lemma {:induction false} ParseItemsText(f: Form, es: seq<WafObject>, rest: seq<unit16>)
    requires es != []
    ensures ParseItems(f, EntriesIn(f, es, false) + [RBRACKET] + rest) == Then(ReadingItems(f, es), rest)
    decreases es, 1
  {
    hide ParseValue, ParseItems, EntriesIn, TextIn, Reading, EndsNumber, EndsValue, After;
    var after := After(f, es, false, RBRACKET, rest);
    AfterFirst(f, es, false, RBRACKET, rest);
    SplitFirst(f, es, false, RBRACKET, rest);
    var t := TextIn(f, es[0]) + after;
    assert EntriesIn(f, es, false) + [RBRACKET] + rest == t by { assert [] + t == t; }
    ParseReading(f, es[0], after);
    if |es| > 1 {
      ParseItemsText(f, es[1..], rest);
    } else {
      NothingRead(f, es[1..]);
    }
    RoundFails(f, t, [], t);
    if Reading(f, es[0]).Some? {
      var v := Reading(f, es[0]).value;
      ItemsRound(f, t, v, after);
      assert [v] + [] == [v];
    }
  }

  lemma {:induction false} ParseMembersText(f: Form, es: seq<WafObject>, rest: seq<unit16>)
    requires es != []
    ensures ParseMembers(f, EntriesIn(f, es, true) + [RBRACE] + rest) == Then(ReadingMembers(f, es), rest)
    decreases es, 1
  {
    hide ParseValue, ParseMembers, ParseKey, EntriesIn, TextIn, Reading, EndsNumber, EndsValue, After, StringIn, Quoted16;
    var after := After(f, es, true, RBRACE, rest);
    AfterFirst(f, es, true, RBRACE, rest);
    SplitFirst(f, es, true, RBRACE, rest);
    var key, t := StringIn(f, NameBytes(es[0])), TextIn(f, es[0]) + after;
    ParseName(f, key, t);
    ParseReading(f, es[0], after);
    if |es| > 1 {
      ParseMembersText(f, es[1..], rest);
    } else {
      NothingRead(f, es[1..]);
    }
    RoundFails(f, Quoted16(key) + [COLON] + t, key, t);
    if Reading(f, es[0]).Some? {
      var v := Reading(f, es[0]).value;
      MembersRound(f, Quoted16(key) + [COLON] + t, key, t, v, after);
      assert [Member(key, v)] + [] == [Member(key, v)];
    }
  }

  /** A tree with a value, read back, whatever follows it. */
  lemma ParseText(f: Form, o: WafObject, rest: seq<unit16>)
    requires HasValue(o) && EndsNumber(rest)
    ensures ParseValue(f, TextIn(f, o) + rest) == Ok(Value(f, o), rest)
  {
    hide ParseValue, Value, TextIn, Reading, EndsNumber, EndsValue;
    ReadingIsValueIff(f, o);
    ParseReading(f, o, rest);
  }

  lemma ParseWhole(f: Form, o: WafObject)
    ensures ParseJson(f, TextIn(f, o)) == Reading(f, o)
  {
    hide ParseValue, TextIn, Reading;
    ParseReading(f, o, []);
    assert TextIn(f, o) + [] == TextIn(f, o);
  }

  /** Print then parse: the whole text has the reading of the tree, which is its value if and only if the tree has one. */
  lemma PrintThenParse(o: WafObject)
    ensures ParseJson(Printed, Text(o)) == Reading(Printed, o)
    ensures ParseJson(Printed, Text(o)) == Some(Value(Printed, o)) <==> HasValue(o)
  {
    hide *;
    ParseWhole(Printed, o);
    TextIsPrinted(o);
    ReadingIsValueIff(Printed, o);
  }

  /** The same of the Java string, for the value in which each string is leniently decoded. */
  lemma StringThenParse(o: WafObject)
    ensures ParseJson(Java, TextIn(Java, o)) == Reading(Java, o)
    ensures ParseJson(Java, TextIn(Java, o)) == Some(Value(Java, o)) <==> HasValue(o)
  {
    hide *;
    ParseWhole(Java, o);
    ReadingIsValueIff(Java, o);
  }
}
