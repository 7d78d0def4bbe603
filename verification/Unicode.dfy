/**
  UTF-16 and UTF-8 as values: what the two decoders and the two writers of utf16_utf8.c compute, stated from the
  standards' tables rather than from the C branches, and the laws that hold between them.
  */
module Unicode {
  import opened Common

  const REPL_CHAR: int := 0xFFFD

  /** One decoding step: the status flag, the code point (0 on failure) and how far the cursor moves. */
  datatype Step = Step(ok: bool, cp: int, adv: nat)

  predicate IsScalar(k: int) {
    0 <= k < 0xD800 || 0xE000 <= k <= 0x10FFFF
  }

  // ---------------------------------------------------------------- UTF-16

  predicate Lead16(c: unit16) { 0xD800 <= c <= 0xDBFF }

  predicate Trail16(c: unit16) { 0xDC00 <= c <= 0xDFFF }

  /** s starts with a surrogate pair. */
  predicate PairAt(s: seq<unit16>) {
    |s| >= 2 && Lead16(s[0]) && Trail16(s[1])
  }

  function PairValue(hi: unit16, lo: unit16): int
    requires Lead16(hi) && Trail16(lo)
  {
    0x1_0000 + (hi - 0xD800) * 0x400 + (lo - 0xDC00)
  }

  /** One step over well-formed or ill-formed UTF-16: a pair, a lone non-surrogate, or one unpaired surrogate. */
  function NextUtf16(s: seq<unit16>): Step
    requires s != []
  {
    if PairAt(s) then Step(true, PairValue(s[0], s[1]), 2)
    else if Lead16(s[0]) || Trail16(s[0]) then Step(false, 0, 1)
    else Step(true, s[0], 1)
  }

  /** The two-unit form `_write_utf16_codeunits` gives a code point above 0xFFFF; only its low 16 bits survive. */
  function WriteUtf16(k: int): (r: seq<unit16>)
    requires IsScalar(k)
    ensures |r| == if k < 0x1_0000 then 1 else 2
  {
    if k < 0x1_0000 then [k]
    else [0xD800 + (k % 0x1_0000) / 0x400, 0xDC00 + k % 0x400]
  }

  // ---------------------------------------------------------------- UTF-8

  /** A byte that can stand alone or start a sequence. */
  predicate Utf8Lead(c: byte) { c < 0x80 || 0xC2 <= c <= 0xF4 }

  predicate Utf8Trail(c: byte) { 0x80 <= c <= 0xBF }

  // The four forms of section 4 of RFC 3629, at the start of s.

  predicate Utf8Form1(s: seq<byte>) {
    |s| >= 1 && s[0] <= 0x7F
  }

  predicate Utf8Form2(s: seq<byte>) {
    |s| >= 2 && 0xC2 <= s[0] <= 0xDF && Utf8Trail(s[1])
  }

  predicate Utf8Form3(s: seq<byte>) {
    |s| >= 3 && Utf8Trail(s[2]) &&
    (|| (s[0] == 0xE0 && 0xA0 <= s[1] <= 0xBF)
     || (0xE1 <= s[0] <= 0xEC && Utf8Trail(s[1]))
     || (s[0] == 0xED && 0x80 <= s[1] <= 0x9F)
     || (0xEE <= s[0] <= 0xEF && Utf8Trail(s[1])))
  }

  predicate Utf8Form4(s: seq<byte>) {
    |s| >= 4 && Utf8Trail(s[2]) && Utf8Trail(s[3]) &&
    (|| (s[0] == 0xF0 && 0x90 <= s[1] <= 0xBF)
     || (0xF1 <= s[0] <= 0xF3 && Utf8Trail(s[1]))
     || (s[0] == 0xF4 && 0x80 <= s[1] <= 0x8F))
  }

  /** The length of the well-formed character s starts with, 0 when there is none. */
  function Utf8CharLen(s: seq<byte>): (n: nat)
    ensures n <= |s| && n <= 4
  {
    if Utf8Form1(s) then 1
    else if Utf8Form2(s) then 2
    else if Utf8Form3(s) then 3
    else if Utf8Form4(s) then 4
    else 0
  }

  // The bit distribution of section 3 of RFC 3629, for two, three and four bytes.

  function Value2(a: int, b: int): int { (a - 0xC0) * 0x40 + (b - 0x80) }

  function Value3(a: int, b: int, c: int): int { (a - 0xE0) * 0x1000 + (b - 0x80) * 0x40 + (c - 0x80) }

  function Value4(a: int, b: int, c: int, d: int): int {
    (a - 0xF0) * 0x4_0000 + (b - 0x80) * 0x1000 + (c - 0x80) * 0x40 + (d - 0x80)
  }

  /** The code point of the well-formed character s starts with. */
  function Utf8CharValue(s: seq<byte>): int
    requires Utf8CharLen(s) > 0
  {
    match Utf8CharLen(s)
    case 1 => s[0]
    case 2 => Value2(s[0], s[1])
    case 3 => Value3(s[0], s[1], s[2])
    case _ => Value4(s[0], s[1], s[2], s[3])
  }

  /** How many bytes a sequence announced by c should have; 1 for a byte that announces none. */
  function Utf8Announced(c: byte): (n: nat)
    ensures 1 <= n <= 4
  {
    if c < 0xC2 then 1
    else if c < 0xE0 then 2
    else if c < 0xF0 then 3
    else if c < 0xF5 then 4
    else 1
  }

  /** The number of bytes from the start of s, at most limit, before the first lead byte or the end. */
  function NonLeadRun(s: seq<byte>, limit: nat): (n: nat)
    ensures n <= limit && n <= |s|
    ensures forall k :: 0 <= k < n ==> !Utf8Lead(s[k])
    ensures n < limit && n < |s| ==> Utf8Lead(s[n])
  {
    if limit == 0 || s == [] || Utf8Lead(s[0]) then 0
    else 1 + NonLeadRun(s[1..], limit - 1)
  }

  /**
    One lenient step. An illegal sequence takes its first byte and the following announced bytes up to, and never
    including, a byte that could start a character (strategy 2 of section 3.6.1 of UTR #36).
    */
  function NextUtf8(s: seq<byte>): Step
    requires s != []
  {
    var n := Utf8CharLen(s);
    if n > 0 then Step(true, Utf8CharValue(s), n)
    else Step(false, 0, 1 + NonLeadRun(s[1..], Utf8Announced(s[0]) - 1))
  }

  /** The shortest UTF-8 form of a code point. */
  function WriteUtf8(k: int): (r: seq<byte>)
    requires IsScalar(k)
    ensures 1 <= |r| <= 4
  {
    if k < 0x80 then [k]
    else if k < 0x800 then [0xC0 + k / 0x40, 0x80 + k % 0x40]
    else if k < 0x1_0000 then [0xE0 + k / 0x1000, 0x80 + k / 0x40 % 0x40, 0x80 + k % 0x40]
    else [0xF0 + k / 0x4_0000, 0x80 + k / 0x1000 % 0x40, 0x80 + k / 0x40 % 0x40, 0x80 + k % 0x40]
  }

  // ---------------------------------------------------------------- facts about one step

  // The base-64 digits of a code point.

  lemma Digits2(k: int, a: int, b: int)
    requires k == a * 0x40 + b && 0 <= b < 0x40
    ensures k / 0x40 == a && k % 0x40 == b
  {
  }

  lemma Digits3(k: int, a: int, b: int, c: int)
    requires k == a * 0x1000 + b * 0x40 + c && 0 <= b < 0x40 && 0 <= c < 0x40
    ensures k / 0x1000 == a && k / 0x40 % 0x40 == b && k % 0x40 == c
  {
    Digits2(k, a * 0x40 + b, c);
    Digits2(k / 0x40, a, b);
  }

  lemma Digits4(k: int, a: int, b: int, c: int, d: int)
    requires k == a * 0x4_0000 + b * 0x1000 + c * 0x40 + d && 0 <= b < 0x40 && 0 <= c < 0x40 && 0 <= d < 0x40
    ensures k / 0x4_0000 == a && k / 0x1000 % 0x40 == b && k / 0x40 % 0x40 == c && k % 0x40 == d
  {
    Digits2(k, a * 0x1000 + b * 0x40 + c, d);
    Digits3(k / 0x40, a, b, c);
  }

  lemma TwoBytes(k: int, a: int, b: int)
    requires k == a * 0x40 + b && 2 <= a < 0x20 && 0 <= b < 0x40
    ensures 0x80 <= k < 0x800 && IsScalar(k) && WriteUtf8(k) == [0xC0 + a, 0x80 + b]
  {
    Digits2(k, a, b);
  }

  lemma ThreeBytes(k: int, a: int, b: int, c: int)
    requires k == a * 0x1000 + b * 0x40 + c && 0 <= a < 0x10 && 0 <= b < 0x40 && 0 <= c < 0x40
    requires 0x800 <= k < 0x1_0000 && IsScalar(k)
    ensures WriteUtf8(k) == [0xE0 + a, 0x80 + b, 0x80 + c]
  {
    Digits3(k, a, b, c);
  }

  lemma FourBytes(k: int, a: int, b: int, c: int, d: int)
    requires k == a * 0x4_0000 + b * 0x1000 + c * 0x40 + d && 0 <= a < 0x8 && 0 <= b < 0x40 && 0 <= c < 0x40 && 0 <= d < 0x40
    requires 0x1_0000 <= k <= 0x10FFFF
    ensures WriteUtf8(k) == [0xF0 + a, 0x80 + b, 0x80 + c, 0x80 + d]
  {
    Digits4(k, a, b, c, d);
  }

  lemma WriteValue2(s: seq<byte>)
    requires Utf8Form2(s)
    ensures 0x80 <= Value2(s[0], s[1]) < 0x800
    ensures WriteUtf8(Value2(s[0], s[1])) == s[..2]
  {
    hide WriteUtf8;
    TwoBytes(Value2(s[0], s[1]), s[0] as int - 0xC0, s[1] as int - 0x80);
    assert s[..2] == [s[0], s[1]];
  }

  lemma WriteValue3(s: seq<byte>)
    requires Utf8Form3(s)
    ensures 0x800 <= Value3(s[0], s[1], s[2]) < 0x1_0000 && IsScalar(Value3(s[0], s[1], s[2]))
    ensures WriteUtf8(Value3(s[0], s[1], s[2])) == s[..3]
  {
    hide WriteUtf8;
    ThreeBytes(Value3(s[0], s[1], s[2]), s[0] as int - 0xE0, s[1] as int - 0x80, s[2] as int - 0x80);
    assert s[..3] == [s[0], s[1], s[2]];
  }

  lemma WriteValue4(s: seq<byte>)
    requires Utf8Form4(s)
    ensures 0x1_0000 <= Value4(s[0], s[1], s[2], s[3]) <= 0x10FFFF
    ensures WriteUtf8(Value4(s[0], s[1], s[2], s[3])) == s[..4]
  {
    hide WriteUtf8;
    FourBytes(Value4(s[0], s[1], s[2], s[3]), s[0] as int - 0xF0, s[1] as int - 0x80, s[2] as int - 0x80, s[3] as int - 0x80);
    assert s[..4] == [s[0], s[1], s[2], s[3]];
  }

  /** Decoder exactness on success: the code point is a scalar value whose encoding is exactly the consumed bytes. */
  lemma NextUtf8Exact(s: seq<byte>)
    requires s != []
    ensures NextUtf8(s).ok <==> Utf8Form1(s) || Utf8Form2(s) || Utf8Form3(s) || Utf8Form4(s)
    ensures NextUtf8(s).adv <= |s| && 1 <= NextUtf8(s).adv <= 4
    ensures NextUtf8(s).ok ==> IsScalar(NextUtf8(s).cp) && WriteUtf8(NextUtf8(s).cp) == s[..NextUtf8(s).adv]
  {
    match Utf8CharLen(s)
    case 0 =>
    case 1 => assert s[..1] == [s[0]];
    case 2 => WriteValue2(s);
    case 3 => WriteValue3(s);
    case _ => WriteValue4(s);
  }

  /** Every failure stops before the first byte that could start a character, and is as long as it may be. */
  lemma NextUtf8FailureIsMaximal(s: seq<byte>)
    requires s != [] && !NextUtf8(s).ok
    ensures NextUtf8(s).cp == 0
    ensures var n := NextUtf8(s).adv; var c := s[0];
      var most := Min(|s|, if 0xC2 <= c <= 0xDF then 2 else if 0xE0 <= c <= 0xEF then 3 else if 0xF0 <= c <= 0xF4 then 4 else 1);
      && 1 <= n <= most
      && (forall k :: 1 <= k < n ==> 0x80 <= s[k] <= 0xC1 || s[k] >= 0xF5)
      && (n < most ==> s[n] < 0x80 || 0xC2 <= s[n] <= 0xF4)
  {
    var adv := NextUtf8(s).adv;
    assert forall k :: 1 <= k < adv ==> s[k] == s[1..][k - 1];
    assert adv < |s| ==> s[adv] == s[1..][adv - 1];
  }

  /** The digits of a code point above 0x7F, and the bounds on the first of them. */
  lemma WrittenForm(k: int)
    requires IsScalar(k) && k >= 0x80
    ensures k < 0x800 ==> Utf8Form2(WriteUtf8(k)) && |WriteUtf8(k)| == 2
    ensures 0x800 <= k < 0x1_0000 ==> Utf8Form3(WriteUtf8(k)) && |WriteUtf8(k)| == 3
    ensures 0x1_0000 <= k ==> Utf8Form4(WriteUtf8(k)) && |WriteUtf8(k)| == 4
  {
    hide *;
    if k < 0x800 {
      WrittenForm2(k);
    } else if k < 0x1_0000 {
      WrittenForm3(k);
    } else {
      WrittenForm4(k);
    }
  }

  lemma WrittenForm2(k: int)
    requires IsScalar(k) && 0x80 <= k < 0x800
    ensures Utf8Form2(WriteUtf8(k)) && |WriteUtf8(k)| == 2
  {
  }

  lemma WrittenForm3(k: int)
    requires IsScalar(k) && 0x800 <= k < 0x1_0000
    ensures Utf8Form3(WriteUtf8(k)) && |WriteUtf8(k)| == 3
  {
  }

  lemma WrittenForm4(k: int)
    requires IsScalar(k) && 0x1_0000 <= k
    ensures Utf8Form4(WriteUtf8(k)) && |WriteUtf8(k)| == 4
  {
  }

  lemma WrittenValue(k: int)
    requires IsScalar(k) && k >= 0x80
    ensures var w := WriteUtf8(k);
      if k < 0x800 then Value2(w[0], w[1]) == k
      else if k < 0x1_0000 then Value3(w[0], w[1], w[2]) == k
      else Value4(w[0], w[1], w[2], w[3]) == k
  {
    assert k == k / 0x40 * 0x40 + k % 0x40;
    assert k / 0x40 == k / 0x1000 * 0x40 + k / 0x40 % 0x40;
    assert k / 0x1000 == k / 0x4_0000 * 0x40 + k / 0x1000 % 0x40;
  }

  /** Encoding then decoding one scalar value, whatever bytes follow it. */
  lemma DecodeWritten(k: int, rest: seq<byte>)
    requires IsScalar(k)
    ensures NextUtf8(WriteUtf8(k) + rest) == Step(true, k, |WriteUtf8(k)|)
    ensures (WriteUtf8(k) + rest)[|WriteUtf8(k)|..] == rest
  {
    if k >= 0x80 {
      WrittenForm(k);
      WrittenValue(k);
    }
  }

  // ---------------------------------------------------------------- whole strings

  /** What the loops do with a failed step: substitute U+FFFD. */
  function Repaired(st: Step): int {
    if st.ok then st.cp else REPL_CHAR
  }

  lemma StepsAreScalar8(s: seq<byte>)
    requires s != []
    ensures IsScalar(Repaired(NextUtf8(s))) && 1 <= NextUtf8(s).adv <= |s|
  {
    NextUtf8Exact(s);
  }

  /** The code units one lenient step contributes. */
  function DecodedStep(s: seq<byte>): seq<unit16>
    requires s != []
  {
    StepsAreScalar8(s);
    WriteUtf16(Repaired(NextUtf8(s)))
  }

  /** Lenient UTF-8 to UTF-16, as `java_utf8_to_jstring_checked` performs it. */
  function Utf8ToUtf16(s: seq<byte>): seq<unit16> {
    if s == [] then []
    else
      StepsAreScalar8(s);
      DecodedStep(s) + Utf8ToUtf16(s[NextUtf8(s).adv..])
  }

  /** Lenient UTF-16 to UTF-8, as `java_utf16_to_utf8_checked` and Java's replacing encoder perform it. */
  function Utf16ToUtf8(s: seq<unit16>): seq<byte> {
    if s == [] then []
    else
      var st := NextUtf16(s);
      WriteUtf8(Repaired(st)) + Utf16ToUtf8(s[st.adv..])
  }

  /** One step writes no more units than it reads bytes. */
  lemma DecodedStepLength(s: seq<byte>)
    requires s != []
    ensures 1 <= |DecodedStep(s)| <= NextUtf8(s).adv <= |s|
  {
    NextUtf8Exact(s);
    var st := NextUtf8(s);
    if st.ok && st.cp >= 0x1_0000 {
      assert |WriteUtf8(st.cp)| == 4;
    }
  }

  /** UTF-8 to UTF-16 never produces more code units than it reads bytes. */
  lemma {:induction false} Utf8ToUtf16Length(s: seq<byte>)
    ensures |Utf8ToUtf16(s)| <= |s|
  {
    if s != [] {
      DecodedStepLength(s);
      Utf8ToUtf16Length(s[NextUtf8(s).adv..]);
    }
  }

  /** UTF-16 to UTF-8 produces at most three bytes per code unit. */
  lemma {:induction false} Utf16ToUtf8Length(s: seq<unit16>)
    ensures |Utf16ToUtf8(s)| <= 3 * |s|
  {
    if s != [] {
      Utf16ToUtf8Length(s[NextUtf16(s).adv..]);
    }
  }

  // ---------------------------------------------------------------- decoding in pieces

  /** b may follow a without disturbing how a is decoded. */
  predicate AtBoundary(b: seq<byte>) {
    b == [] || Utf8Lead(b[0])
  }

  /** A decoding step never looks across a lead byte: a truncated character fails alike at the end and before one. */
  lemma NextUtf8AtBoundary(a: seq<byte>, b: seq<byte>)
    requires a != [] && AtBoundary(b)
    ensures NextUtf8(a + b) == NextUtf8(a)
  {
    hide AtBoundary, Utf8CharLen, NonLeadRun, Value2, Value3, Value4;
    CharLenAtBoundary(a, b);
    CharLenFits(a);
    assert forall i :: 0 <= i < |a| ==> (a + b)[i] == a[i];
    if Utf8CharLen(a) == 0 {
      assert (a + b)[1..] == a[1..] + b;
      NonLeadRunAtBoundary(a[1..], b, Utf8Announced(a[0]) - 1);
    }
  }

  lemma CharLenFits(a: seq<byte>)
    requires a != []
    ensures Utf8CharLen(a) <= |a|
  {
  }

  lemma CharLenAtBoundary(a: seq<byte>, b: seq<byte>)
    requires a != [] && AtBoundary(b)
    ensures Utf8CharLen(a + b) == Utf8CharLen(a)
  {
    assert forall i :: 0 <= i < |a| ==> (a + b)[i] == a[i];
    assert b != [] ==> (a + b)[|a|] == b[0];
  }

  lemma {:induction false} NonLeadRunAtBoundary(a: seq<byte>, b: seq<byte>, limit: nat)
    requires AtBoundary(b)
    ensures NonLeadRun(a + b, limit) == NonLeadRun(a, limit)
  {
    if a == [] {
      assert a + b == b;
    } else if limit > 0 && !Utf8Lead(a[0]) {
      assert (a + b)[1..] == a[1..] + b;
      NonLeadRunAtBoundary(a[1..], b, limit - 1);
    }
  }

  /** Lenient decoding is a homomorphism at lead bytes, for arbitrary bytes on either side. */
  lemma {:induction false} DecodeConcat(a: seq<byte>, b: seq<byte>)
    requires AtBoundary(b)
    ensures Utf8ToUtf16(a + b) == Utf8ToUtf16(a) + Utf8ToUtf16(b)
    decreases |a|
  {
    hide *;
    if a == [] {
      DecodeEmpty();
      assert a + b == b;
    } else {
      var n := NextUtf8(a).adv;
      NextUtf8AtBoundary(a, b);
      SameStep(a, a + b);
      DecodeStep(a);
      DecodeStep(a + b);
      assert (a + b)[n..] == a[n..] + b;
      DecodeConcat(a[n..], b);
      Associate(DecodedStep(a), Utf8ToUtf16(a[n..]), Utf8ToUtf16(b));
    }
  }

  lemma DecodeEmpty()
    ensures Utf8ToUtf16([]) == []
  {
  }

  lemma DecodeStep(s: seq<byte>)
    requires s != []
    ensures 1 <= NextUtf8(s).adv <= |s| && Utf8ToUtf16(s) == DecodedStep(s) + Utf8ToUtf16(s[NextUtf8(s).adv..])
  {
    hide NextUtf8, DecodedStep;
    StepsAreScalar8(s);
  }

  lemma SameStep(s: seq<byte>, t: seq<byte>)
    requires s != [] && t != [] && NextUtf8(t) == NextUtf8(s)
    ensures DecodedStep(t) == DecodedStep(s)
  {
    hide NextUtf8;
  }

  /** A step depends on the first four bytes only. */
  lemma NextUtf8Local(s: seq<byte>, t: seq<byte>)
    requires s != [] && t != []
    requires s[..Min(4, |s|)] == t[..Min(4, |t|)]
    ensures NextUtf8(s) == NextUtf8(t)
  {
    var n := Min(4, |s|);
    assert n == Min(4, |t|);
    assert forall i :: 0 <= i < n ==> s[i] == s[..n][i] && t[i] == t[..n][i];
    if Utf8CharLen(s) == 0 {
      NonLeadRunLocal(s[1..], t[1..], Utf8Announced(s[0]) - 1);
    }
  }

  lemma {:induction false} NonLeadRunLocal(s: seq<byte>, t: seq<byte>, limit: nat)
    requires Min(limit, |s|) == Min(limit, |t|)
    requires forall i :: 0 <= i < Min(limit, |s|) ==> s[i] == t[i]
    ensures NonLeadRun(s, limit) == NonLeadRun(t, limit)
  {
    if limit > 0 && s != [] {
      NonLeadRunLocal(s[1..], t[1..], limit - 1);
    }
  }

  // ---------------------------------------------------------------- the round trip

  /** s with every unpaired surrogate replaced by U+FFFD: what a faithful round trip gives. */
  function Repair(s: seq<unit16>): (r: seq<unit16>)
    ensures |r| == |s|
  {
    if s == [] then []
    else if PairAt(s) then s[..2] + Repair(s[2..])
    else if NextUtf16(s).ok then [s[0]] + Repair(s[1..])
    else [REPL_CHAR] + Repair(s[1..])
  }

  /** Repair, with the lead of every surrogate pair reduced to its low six bits: what the code gives. */
  function RepairNarrowed(s: seq<unit16>): (r: seq<unit16>)
    ensures |r| == |s|
  {
    if s == [] then []
    else if PairAt(s) then [0xD800 + (s[0] as int - 0xD800) % 0x40, s[1]] + RepairNarrowed(s[2..])
    else if NextUtf16(s).ok then [s[0]] + RepairNarrowed(s[1..])
    else [REPL_CHAR] + RepairNarrowed(s[1..])
  }

  /** No surrogate pair of s stands for a code point of 0x20000 or above. */
  predicate BelowPlane2(s: seq<unit16>) {
    if s == [] then true
    else NextUtf16(s).cp < 0x2_0000 && BelowPlane2(s[NextUtf16(s).adv..])
  }

  lemma WritePair(hi: unit16, lo: unit16)
    requires Lead16(hi) && Trail16(lo)
    ensures WriteUtf16(PairValue(hi, lo)) == [0xD800 + (hi as int - 0xD800) % 0x40, lo]
  {
    var h, l := hi as int - 0xD800, lo as int - 0xDC00;
    PairDigits(PairValue(hi, lo), h / 0x40, h % 0x40, l);
  }

  lemma PairDigits(k: int, a: int, b: int, l: int)
    requires k == 0x1_0000 + (a * 0x40 + b) * 0x400 + l && 0 <= a && 0 <= b < 0x40 && 0 <= l < 0x400
    ensures k % 0x400 == l && k % 0x1_0000 == b * 0x400 + l && k % 0x1_0000 / 0x400 == b
  {
    Quotient(k, 0x40 + a * 0x40 + b, l, 0x400);
    Quotient(k, 1 + a, b * 0x400 + l, 0x1_0000);
    Quotient(b * 0x400 + l, b, l, 0x400);
  }

  lemma Quotient(k: int, q: int, r: int, d: int)
    requires d in {0x400, 0x1_0000} && k == q * d + r && 0 <= r < d
    ensures k / d == q && k % d == r
  {
  }

  /** The value a supplementary code point comes back as once its two-unit form is read again. */
  lemma WriteUtf16Reads(k: int)
    requires IsScalar(k) && k >= 0x1_0000
    ensures NextUtf16(WriteUtf16(k)) == Step(true, 0x1_0000 + k % 0x1_0000, 2)
    ensures NextUtf16(WriteUtf16(k)).cp == k <==> k < 0x2_0000
  {
    var m := k % 0x1_0000;
    assert k % 0x400 == m % 0x400 by { assert k == k / 0x1_0000 * 0x1_0000 + m; }
  }

  /** Decoding a written scalar value followed by t. */
  lemma DecodeWrittenThen(k: int, t: seq<byte>)
    requires IsScalar(k)
    ensures Utf8ToUtf16(WriteUtf8(k) + t) == WriteUtf16(k) + Utf8ToUtf16(t)
  {
    DecodeWritten(k, t);
  }

  /** The head of the narrowed string is what one step of the round trip writes. */
  lemma NarrowedStep(s: seq<unit16>)
    requires s != []
    ensures RepairNarrowed(s) == WriteUtf16(Repaired(NextUtf16(s))) + RepairNarrowed(s[NextUtf16(s).adv..])
  {
    hide *;
    NarrowedIs(s);
    WrittenStep(s);
  }

  lemma NarrowedIs(s: seq<unit16>)
    requires s != []
    ensures var st := NextUtf16(s);
      && 1 <= st.adv <= |s| && (PairAt(s) ==> |s| >= 2 && 0xD800 <= s[0])
      && RepairNarrowed(s) ==
         (if PairAt(s) then [0xD800 + (s[0] as int - 0xD800) % 0x40, s[1]] else if st.ok then [s[0]] else [REPL_CHAR])
         + RepairNarrowed(s[st.adv..])
  {
    hide PairValue, RepairNarrowed;
    if PairAt(s) {
      NarrowedPair(s);
    } else {
      NarrowedSingle(s);
    }
  }

  lemma NarrowedPair(s: seq<unit16>)
    requires PairAt(s)
    ensures RepairNarrowed(s) == [0xD800 + (s[0] as int - 0xD800) % 0x40, s[1]] + RepairNarrowed(s[2..])
  {
    hide NextUtf16;
  }

  lemma NarrowedSingle(s: seq<unit16>)
    requires s != [] && !PairAt(s)
    ensures RepairNarrowed(s) == (if NextUtf16(s).ok then [s[0]] else [REPL_CHAR]) + RepairNarrowed(s[1..])
  {
    hide NextUtf16, PairAt;
  }

  lemma WrittenStep(s: seq<unit16>)
    requires s != []
    ensures var st := NextUtf16(s);
      && IsScalar(Repaired(st)) && (PairAt(s) ==> |s| >= 2 && 0xD800 <= s[0])
      && WriteUtf16(Repaired(st)) ==
         if PairAt(s) then [0xD800 + (s[0] as int - 0xD800) % 0x40, s[1]] else if st.ok then [s[0]] else [REPL_CHAR]
  {
    hide WriteUtf16, PairValue;
    if PairAt(s) {
      PairUnits(s[0], s[1]);
      WritePair(s[0], s[1]);
    } else {
      WriteOne(if NextUtf16(s).ok then s[0] else REPL_CHAR);
    }
  }

  lemma WriteOne(k: unit16)
    requires IsScalar(k)
    ensures WriteUtf16(k) == [k]
  {
  }

  /** UTF-16 to UTF-8 and back, for every string: exactly the repaired string with narrowed pairs. */
  lemma {:induction false} RoundTripExact(s: seq<unit16>)
    ensures Utf8ToUtf16(Utf16ToUtf8(s)) == RepairNarrowed(s)
    decreases |s|
  {
    if s != [] {
      var st := NextUtf16(s);
      NarrowedStep(s);
      RoundTripExact(s[st.adv..]);
      DecodeWrittenThen(Repaired(st), Utf16ToUtf8(s[st.adv..]));
    }
  }

  /** The round trip is faithful exactly on the strings with no code point of 0x20000 or above. */
  lemma {:induction false} RoundTripFaithfulIff(s: seq<unit16>)
    ensures Utf8ToUtf16(Utf16ToUtf8(s)) == Repair(s) <==> BelowPlane2(s)
  {
    RoundTripExact(s);
    NarrowedIff(s);
  }

  lemma {:induction false} NarrowedIff(s: seq<unit16>)
    ensures RepairNarrowed(s) == Repair(s) <==> BelowPlane2(s)
    decreases |s|
  {
    if s != [] {
      var n := NextUtf16(s).adv;
      NarrowedIff(s[n..]);
      assert RepairNarrowed(s)[n..] == RepairNarrowed(s[n..]);
      assert Repair(s)[n..] == Repair(s[n..]);
      if PairAt(s) {
        NarrowedHeadIff(s[0], s[1]);
        assert RepairNarrowed(s)[0] == 0xD800 + (s[0] as int - 0xD800) % 0x40 && Repair(s)[0] == s[0];
        assert RepairNarrowed(s)[1] == Repair(s)[1];
      }
      HeadAndTail(RepairNarrowed(s), Repair(s), n);
    }
  }

  lemma NarrowedHeadIff(hi: unit16, lo: unit16)
    requires Lead16(hi) && Trail16(lo)
    ensures 0xD800 + (hi as int - 0xD800) % 0x40 == hi <==> PairValue(hi, lo) < 0x2_0000
  {
  }

  lemma HeadAndTail(a: seq<unit16>, b: seq<unit16>, n: nat)
    requires |a| == |b| && n <= |a|
    ensures a == b <==> a[..n] == b[..n] && a[n..] == b[n..]
  {
    assert a == a[..n] + a[n..] && b == b[..n] + b[n..];
  }

  /** A single pair comes back with the low six bits of its lead. */
  lemma RoundTripOfPair(hi: unit16, lo: unit16)
    requires Lead16(hi) && Trail16(lo)
    ensures Repair([hi, lo]) == [hi, lo]
    ensures Utf8ToUtf16(Utf16ToUtf8([hi, lo])) == [0xD800 + (hi as int - 0xD800) % 0x40, lo]
  {
    var s := [hi, lo];
    RoundTripExact(s);
    NarrowedStep(s);
    WritePair(hi, lo);
    assert s[2..] == [];
  }

  /** U+20000 (lead 0xD840, trail 0xDC00) comes back as U+10000: the faithful round trip does fail. */
  lemma RoundTripLosesPlane2(hi: unit16, lo: unit16)
    requires hi == 0xD840 && lo == 0xDC00
    ensures PairValue(hi, lo) == 0x2_0000
    ensures Repair([hi, lo]) == [hi, lo]
    ensures Utf8ToUtf16(Utf16ToUtf8([hi, lo])) == [0xD800, lo]
  {
    hide *;
    RoundTripOfPair(hi, lo);
    PairOfPlane2();
  }

  lemma PairOfPlane2()
    ensures Lead16(0xD840) && Trail16(0xDC00) && PairValue(0xD840, 0xDC00) == 0x2_0000
    ensures 0xD800 + (0xD840 - 0xD800) % 0x40 == 0xD800
  {
  }

  // ---------------------------------------------------------------- strings with the same encoding

  lemma EncodeStep(s: seq<unit16>)
    requires s != []
    ensures var st := NextUtf16(s);
      && IsScalar(Repaired(st)) && 1 <= st.adv <= |s|
      && Utf16ToUtf8(s) == WriteUtf8(Repaired(st)) + Utf16ToUtf8(s[st.adv..]) != []
  {
    hide WriteUtf8;
  }

  /** The first scalar value of an encoded string, and the rest, can be read off it. */
  lemma SameFirst(j: int, a: seq<byte>, k: int, b: seq<byte>)
    requires IsScalar(j) && IsScalar(k) && WriteUtf8(j) + a == WriteUtf8(k) + b
    ensures j == k && a == b
  {
    hide *;
    DecodeWritten(j, a);
    DecodeWritten(k, b);
  }

  /** One step of repairing depends on the repaired scalar value only. */
  lemma RepairStep(s: seq<unit16>)
    requires s != []
    ensures var st := NextUtf16(s); 1 <= st.adv <= |s| && Repair(s) == UnitsOf(Repaired(st)) + Repair(s[st.adv..])
  {
    hide *;
    RepairIs(s);
    UnitsOfStep(s);
  }

  lemma RepairIs(s: seq<unit16>)
    requires s != []
    ensures var st := NextUtf16(s);
      && 1 <= st.adv <= |s|
      && Repair(s) == (if PairAt(s) then [s[0], s[1]] else if st.ok then [s[0]] else [REPL_CHAR]) + Repair(s[st.adv..])
  {
    hide PairValue, Repair;
    if PairAt(s) {
      RepairPair(s);
    } else {
      RepairSingle(s);
    }
  }

  lemma RepairPair(s: seq<unit16>)
    requires PairAt(s)
    ensures Repair(s) == [s[0], s[1]] + Repair(s[2..])
  {
    hide NextUtf16;
    assert s[..2] == [s[0], s[1]];
  }

  lemma RepairSingle(s: seq<unit16>)
    requires s != [] && !PairAt(s)
    ensures Repair(s) == (if NextUtf16(s).ok then [s[0]] else [REPL_CHAR]) + Repair(s[1..])
  {
    hide NextUtf16, PairAt;
  }

  lemma UnitsOfStep(s: seq<unit16>)
    requires s != []
    ensures var st := NextUtf16(s);
      && IsScalar(Repaired(st)) && (PairAt(s) ==> |s| >= 2)
      && UnitsOf(Repaired(st)) == if PairAt(s) then [s[0], s[1]] else if st.ok then [s[0]] else [REPL_CHAR]
  {
    hide UnitsOf, PairValue, Repair;
    if PairAt(s) {
      PairUnits(s[0], s[1]);
    } else {
      OneUnit(if NextUtf16(s).ok then s[0] else REPL_CHAR);
    }
  }

  lemma OneUnit(k: unit16)
    requires IsScalar(k)
    ensures UnitsOf(k) == [k]
  {
  }

  /** The proper code units of a scalar value. */
  function UnitsOf(k: int): (r: seq<unit16>)
    requires IsScalar(k)
    ensures r != [] && |r| == if k < 0x1_0000 then 1 else 2
  {
    if k < 0x1_0000 then [k] else [0xD800 + (k - 0x1_0000) / 0x400, 0xDC00 + k % 0x400]
  }

  lemma PairUnits(hi: unit16, lo: unit16)
    requires Lead16(hi) && Trail16(lo)
    ensures IsScalar(PairValue(hi, lo)) && UnitsOf(PairValue(hi, lo)) == [hi, lo]
  {
    var k := PairValue(hi, lo);
    Quotient(k, 0x40 + hi as int - 0xD800, lo as int - 0xDC00, 0x400);
    Quotient(k - 0x1_0000, hi as int - 0xD800, lo as int - 0xDC00, 0x400);
  }

  /** Units of scalar values can be told apart from what follows. */
  lemma SameUnits(j: int, a: seq<unit16>, k: int, b: seq<unit16>)
    requires IsScalar(j) && IsScalar(k) && UnitsOf(j) + a == UnitsOf(k) + b
    ensures j == k && a == b
  {
    UnitsFirst(j);
    UnitsFirst(k);
    assert (UnitsOf(j) + a)[0] == UnitsOf(j)[0] && (UnitsOf(k) + b)[0] == UnitsOf(k)[0];
    assert j >= 0x1_0000 ==> (UnitsOf(j) + a)[1] == UnitsOf(j)[1];
    assert k >= 0x1_0000 ==> (UnitsOf(k) + b)[1] == UnitsOf(k)[1];
    hide UnitsOf;
    assert a == (UnitsOf(j) + a)[|UnitsOf(j)|..] && b == (UnitsOf(k) + b)[|UnitsOf(k)|..];
  }

  lemma UnitsFirst(k: int)
    requires IsScalar(k)
    ensures k < 0x1_0000 ==> UnitsOf(k)[0] == k
    ensures k >= 0x1_0000 ==>
      Lead16(UnitsOf(k)[0]) && k == 0x1_0000 + (UnitsOf(k)[0] as int - 0xD800) * 0x400 + (UnitsOf(k)[1] as int - 0xDC00)
  {
  }

  /** Two strings have the same UTF-8 form if and only if they are the same once unpaired surrogates are replaced. */
  lemma {:induction false} SameEncodingIff(s: seq<unit16>, t: seq<unit16>)
    ensures Utf16ToUtf8(s) == Utf16ToUtf8(t) <==> Repair(s) == Repair(t)
    decreases |s|
  {
    hide *;
    if s == [] || t == [] {
      EmptyEncoding(s);
      EmptyEncoding(t);
    } else {
      var m, n := NextUtf16(s), NextUtf16(t);
      EncodeStep(s);
      EncodeStep(t);
      RepairStep(s);
      RepairStep(t);
      var a, b := s[m.adv..], t[n.adv..];
      SameEncodingIff(a, b);
      if Utf16ToUtf8(s) == Utf16ToUtf8(t) {
        SameFirst(Repaired(m), Utf16ToUtf8(a), Repaired(n), Utf16ToUtf8(b));
      }
      if Repair(s) == Repair(t) {
        SameUnits(Repaired(m), Repair(a), Repaired(n), Repair(b));
      }
    }
  }

  lemma EmptyEncoding(s: seq<unit16>)
    ensures Utf16ToUtf8(s) == [] <==> s == []
    ensures Repair(s) == [] <==> s == []
  {
    if s != [] {
      EncodeStep(s);
    }
  }

  // ---------------------------------------------------------------- number by number

  /** A code unit that is no surrogate is encoded in one, two or three bytes. */
  lemma EncodeUnit(s: seq<unit16>)
    requires s != [] && !(0xD800 <= s[0] <= 0xDFFF)
    ensures var k := s[0]; var rest := Utf16ToUtf8(s[1..]);
      Utf16ToUtf8(s) ==
      (if k < 0x80 then [k]
       else if k < 0x800 then [0xC0 + k / 0x40, 0x80 + k % 0x40]
       else [0xE0 + k / 0x1000, 0x80 + k / 0x40 % 0x40, 0x80 + k % 0x40]) + rest
  {
    hide Utf16ToUtf8, WriteUtf8, NextUtf16, Repaired;
    EncodeStep(s);
    UnitIs(s);
    BytesOf(s[0]);
  }

  lemma UnitIs(s: seq<unit16>)
    requires s != [] && !(0xD800 <= s[0] <= 0xDFFF)
    ensures Repaired(NextUtf16(s)) == s[0] && NextUtf16(s).adv == 1 && IsScalar(s[0])
  {
  }

  lemma BytesOf(k: int)
    requires IsScalar(k)
    ensures WriteUtf8(k) ==
      if k < 0x80 then [k]
      else if k < 0x800 then [0xC0 + k / 0x40, 0x80 + k % 0x40]
      else if k < 0x1_0000 then [0xE0 + k / 0x1000, 0x80 + k / 0x40 % 0x40, 0x80 + k % 0x40]
      else [0xF0 + k / 0x4_0000, 0x80 + k / 0x1000 % 0x40, 0x80 + k / 0x40 % 0x40, 0x80 + k % 0x40]
  {
  }

  /** A surrogate pair, with the code point k, is encoded in four bytes. */
  lemma EncodePair(s: seq<unit16>, k: int)
    requires |s| >= 2 && 0xD800 <= s[0] <= 0xDBFF && 0xDC00 <= s[1] <= 0xDFFF
    requires k == 0x1_0000 + (s[0] as int - 0xD800) * 0x400 + (s[1] as int - 0xDC00)
    ensures 0x1_0000 <= k <= 0x10_FFFF
    ensures Utf16ToUtf8(s) ==
      [0xF0 + k / 0x4_0000, 0x80 + k / 0x1000 % 0x40, 0x80 + k / 0x40 % 0x40, 0x80 + k % 0x40] + Utf16ToUtf8(s[2..])
  {
    hide Utf16ToUtf8, WriteUtf8, NextUtf16, Repaired;
    EncodeStep(s);
    PairIs(s);
    BytesOf(k);
  }

  lemma PairIs(s: seq<unit16>)
    requires |s| >= 2 && 0xD800 <= s[0] <= 0xDBFF && 0xDC00 <= s[1] <= 0xDFFF
    ensures var k := 0x1_0000 + (s[0] as int - 0xD800) * 0x400 + (s[1] as int - 0xDC00);
      Repaired(NextUtf16(s)) == k && NextUtf16(s).adv == 2 && IsScalar(k)
  {
  }

  /** Any other surrogate is encoded as U+FFFD. */
  lemma EncodeUnpaired(s: seq<unit16>)
    requires s != [] && 0xD800 <= s[0] <= 0xDFFF
    requires s[0] <= 0xDBFF ==> |s| == 1 || !(0xDC00 <= s[1] <= 0xDFFF)
    ensures Utf16ToUtf8(s) == [0xEF, 0xBF, 0xBD] + Utf16ToUtf8(s[1..])
  {
    hide Utf16ToUtf8, WriteUtf8, NextUtf16, Repaired;
    EncodeStep(s);
    UnpairedIs(s);
    BytesOf(0xFFFD);
  }

  lemma UnpairedIs(s: seq<unit16>)
    requires s != [] && 0xD800 <= s[0] <= 0xDFFF
    requires s[0] <= 0xDBFF ==> |s| == 1 || !(0xDC00 <= s[1] <= 0xDFFF)
    ensures Repaired(NextUtf16(s)) == 0xFFFD && NextUtf16(s).adv == 1
  {
  }

  /** An ill-formed sequence is decoded to one U+FFFD. */
  lemma DecodeIllFormed(b: seq<byte>)
    requires b != [] && !NextUtf8(b).ok
    ensures 1 <= NextUtf8(b).adv <= |b| && Utf8ToUtf16(b) == [0xFFFD] + Utf8ToUtf16(b[NextUtf8(b).adv..])
  {
    hide Utf8ToUtf16;
    DecodeStep(b);
    StepsAreScalar8(b);
  }
}
