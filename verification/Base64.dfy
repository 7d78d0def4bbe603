/** base64.c: the encoding of RFC 4648 as values, the resumable state machine and the unrolled fast loop. */
module Base64 {
  import opened Common

  const PAD: byte := 0x3D

  // ---------------------------------------------------------------- section 4 of RFC 4648

  /** The alphabet; `base64_table_enc_6bit`. */
  function Enc6(i: int): byte
    requires 0 <= i < 64
  {
    if i < 26 then 0x41 + i
    else if i < 52 then 0x61 + i - 26
    else if i < 62 then 0x30 + i - 52
    else if i == 62 then 0x2B
    else 0x2F
  }

  /** One entry of `base64_table_enc_12bit`, which holds two characters. */
  function Enc12(i: int): (r: seq<byte>)
    requires 0 <= i < 4096
    ensures |r| == 2
  {
    [Enc6(i / 64), Enc6(i % 64)]
  }

  function Quad(a: byte, b: byte, c: byte): seq<byte> {
    [Enc6(a / 4), Enc6(a % 4 * 16 + b / 16), Enc6(b % 16 * 4 + c / 64), Enc6(c % 64)]
  }

  function Encode(s: seq<byte>): (r: seq<byte>)
    ensures |r| == (|s| + 2) / 3 * 4
  {
    if |s| == 0 then []
    else if |s| == 1 then [Enc6(s[0] / 4), Enc6(s[0] % 4 * 16), PAD, PAD]
    else if |s| == 2 then [Enc6(s[0] / 4), Enc6(s[0] % 4 * 16 + s[1] / 16), Enc6(s[1] % 16 * 4), PAD]
    else Quad(s[0], s[1], s[2]) + Encode(s[3..])
  }

  /** The index of a character of the alphabet, 64 for any other. */
  function Dec6(c: byte): (i: int)
    ensures 0 <= i <= 64
  {
    if 0x41 <= c <= 0x5A then c - 0x41
    else if 0x61 <= c <= 0x7A then c - 0x61 + 26
    else if 0x30 <= c <= 0x39 then c - 0x30 + 52
    else if c == 0x2B then 62
    else if c == 0x2F then 63
    else 64
  }

  /** A reference decoder: whole groups of four, padding in the last one only, no stray bits. */
  function Decode(t: seq<byte>): Option<seq<byte>> {
    if t == [] then Some([])
    else if |t| < 4 then None
    else
      var (w, x, y, z) := (Dec6(t[0]), Dec6(t[1]), Dec6(t[2]), Dec6(t[3]));
      if w == 64 || x == 64 then None
      else if t[2] == 0x3D then
        if t[3] == 0x3D && |t| == 4 && x % 16 == 0 then Some([w * 4 + x / 16]) else None
      else if y == 64 then None
      else if t[3] == 0x3D then
        if |t| == 4 && y % 4 == 0 then Some([w * 4 + x / 16, x % 16 * 16 + y / 4]) else None
      else if z == 64 then None
      else
        match Decode(t[4..])
        case None => None
        case Some(rest) => Some([w * 4 + x / 16, x % 16 * 16 + y / 4, y % 4 * 64 + z] + rest)
  }

  lemma Dec6Enc6(i: int)
    requires 0 <= i < 64
    ensures Dec6(Enc6(i)) == i && Enc6(i) != 0x3D
  {
  }

  lemma QuadBits(a: byte, b: byte, c: byte)
    ensures var w, x, y, z := a / 4, a % 4 * 16 + b / 16, b % 16 * 4 + c / 64, c % 64;
      && w * 4 + x / 16 == a && x % 16 * 16 + y / 4 == b && y % 4 * 64 + z == c
      && 0 <= w < 64 && 0 <= x < 64 && 0 <= y < 64 && 0 <= z < 64
  {
  }

  lemma DecodeOne(a: byte)
    ensures Decode([Enc6(a / 4), Enc6(a % 4 * 16), PAD, PAD]) == Some([a])
  {
    QuadBits(a, 0, 0);
    Dec6Enc6(a as int / 4);
    Dec6Enc6(a as int % 4 * 16);
  }

  lemma DecodeTwo(a: byte, b: byte)
    ensures Decode([Enc6(a / 4), Enc6(a % 4 * 16 + b / 16), Enc6(b % 16 * 4), PAD]) == Some([a, b])
  {
    QuadBits(a, b, 0);
    Dec6Enc6(a as int / 4);
    Dec6Enc6(a as int % 4 * 16 + b as int / 16);
    Dec6Enc6(b as int % 16 * 4);
  }

  /** The reference decoder recovers every input. */
  lemma {:induction false} DecodeEncode(s: seq<byte>)
    ensures Decode(Encode(s)) == Some(s)
  {
    hide *;
    if |s| < 3 {
      DecodeShort(s);
    } else {
      EncodeGroup(s);
      DecodeQuad(s[0], s[1], s[2], Encode(s[3..]));
      DecodeEncode(s[3..]);
      assert [s[0], s[1], s[2]] + s[3..] == s;
    }
  }

  lemma EncodeGroup(s: seq<byte>)
    requires |s| > 2
    ensures Encode(s) == Quad(s[0], s[1], s[2]) + Encode(s[3..])
  {
    hide Quad;
  }

  lemma DecodeShort(s: seq<byte>)
    requires |s| < 3
    ensures Decode(Encode(s)) == Some(s)
  {
    hide Decode, Encode, Quad, Enc6, Dec6;
    EncodeShort(s);
    if |s| == 1 {
      assert s == [s[0]];
      DecodeOne(s[0]);
    } else if |s| == 2 {
      assert s == [s[0], s[1]];
      DecodeTwo(s[0], s[1]);
    } else {
      DecodeNone();
    }
  }

  lemma EncodeShort(s: seq<byte>)
    ensures |s| == 0 ==> Encode(s) == []
    ensures |s| == 1 ==> Encode(s) == [Enc6(s[0] / 4), Enc6(s[0] % 4 * 16), PAD, PAD]
    ensures |s| == 2 ==> Encode(s) == [Enc6(s[0] / 4), Enc6(s[0] % 4 * 16 + s[1] / 16), Enc6(s[1] % 16 * 4), PAD]
  {
    hide Quad, Enc6;
  }

  lemma DecodeNone()
    ensures Decode([]) == Some([])
  {
  }

  lemma DecodeQuad(a: byte, b: byte, c: byte, t: seq<byte>)
    ensures Decode(Quad(a, b, c) + t) == if Decode(t) == None then None else Some([a, b, c] + Decode(t).value)
  {
    hide Decode, Enc6, Dec6;
    QuadBits(a, b, c);
    DecodeFour(a as int / 4, a as int % 4 * 16 + b as int / 16, b as int % 16 * 4 + c as int / 64, c as int % 64, t);
  }

  lemma GroupBytes(w: int, x: int, y: int, z: int)
    requires 0 <= w < 64 && 0 <= x < 64 && 0 <= y < 64 && 0 <= z < 64
    ensures 0 <= w * 4 + x / 16 < 256 && 0 <= x % 16 * 16 + y / 4 < 256 && 0 <= y % 4 * 64 + z < 256
  {
  }

  lemma DecodeFour(w: int, x: int, y: int, z: int, t: seq<byte>)
    requires 0 <= w < 64 && 0 <= x < 64 && 0 <= y < 64 && 0 <= z < 64
    ensures 0 <= w * 4 + x / 16 < 256 && 0 <= x % 16 * 16 + y / 4 < 256 && 0 <= y % 4 * 64 + z < 256
    ensures Decode([Enc6(w), Enc6(x), Enc6(y), Enc6(z)] + t) ==
            if Decode(t) == None then None
            else Some([w * 4 + x / 16, x % 16 * 16 + y / 4, y % 4 * 64 + z] + Decode(t).value)
  {
    hide Enc6, Dec6;
    GroupBytes(w, x, y, z);
    Dec6Enc6(w);
    Dec6Enc6(x);
    Dec6Enc6(y);
    Dec6Enc6(z);
    assert ([Enc6(w), Enc6(x), Enc6(y), Enc6(z)] + t)[4..] == t;
  }

  /** `base64_capacity` of output.c is exactly the room the encoding takes. */
  lemma CapacityIsExact(s: seq<byte>)
    ensures (4 * |s| / 3 + 3) / 4 * 4 == |Encode(s)|
  {
    CapacityOf(|s| / 3, |s| % 3);
  }

  lemma CapacityOf(k: nat, r: nat)
    requires r < 3
    ensures (4 * (3 * k + r) / 3 + 3) / 4 * 4 == (3 * k + r + 2) / 3 * 4
  {
    if r == 0 {
      assert 4 * (3 * k) / 3 == 4 * k;
      assert (4 * k + 3) / 4 == k;
    } else if r == 1 {
      assert 4 * (3 * k + 1) / 3 == 4 * k + 1;
      assert (4 * k + 4) / 4 == k + 1;
    } else {
      assert 4 * (3 * k + 2) / 3 == 4 * k + 2;
      assert (4 * k + 5) / 4 == k + 1;
    }
  }

  // ---------------------------------------------------------------- the stream as a function of what was fed

  /** The bytes of h not yet part of a whole group of three. */
  function Pending(h: seq<byte>): (p: seq<byte>)
    ensures |p| < 3
  {
    if |h| < 3 then h else Pending(h[3..])
  }

  /** The characters h determines before any padding. */
  function Stream(h: seq<byte>): seq<byte> {
    if |h| == 0 then []
    else if |h| == 1 then [Enc6(h[0] / 4)]
    else if |h| == 2 then [Enc6(h[0] / 4), Enc6(h[0] % 4 * 16 + h[1] / 16)]
    else Quad(h[0], h[1], h[2]) + Stream(h[3..])
  }

  /** The bits of the pending bytes not yet emitted, in the upper part of a 6-bit group. */
  function Carry(p: seq<byte>): (c: int)
    requires |p| < 3
    ensures 0 <= c < 64
  {
    if |p| == 0 then 0 else if |p| == 1 then p[0] % 4 * 16 else p[1] % 16 * 4
  }

  /** The trailer for the pending bytes. */
  function Trailer(p: seq<byte>): seq<byte>
    requires |p| < 3
  {
    if |p| == 0 then []
    else if |p| == 1 then [Enc6(Carry(p)), PAD, PAD]
    else [Enc6(Carry(p)), PAD]
  }

  /** The characters one more byte adds. */
  function StepOut(p: seq<byte>, b: byte): seq<byte>
    requires |p| < 3
  {
    if |p| == 0 then [Enc6(b / 4)]
    else if |p| == 1 then [Enc6(p[0] % 4 * 16 + b / 16)]
    else [Enc6(p[1] % 16 * 4 + b / 64), Enc6(b % 64)]
  }

  /** Ending the stream after h gives the encoding of h. */
  lemma {:induction false} StreamThenTrailer(h: seq<byte>)
    ensures Stream(h) + Trailer(Pending(h)) == Encode(h)
  {
    if |h| >= 3 {
      StreamThenTrailer(h[3..]);
    }
  }

  /** What one more byte adds to the stream. */
  lemma {:induction false} StreamStep(h: seq<byte>, b: byte)
    ensures Stream(h + [b]) == Stream(h) + StepOut(Pending(h), b)
  {
    if |h| >= 3 {
      assert (h + [b])[3..] == h[3..] + [b];
      StreamStep(h[3..], b);
    } else if |h| == 2 {
      assert (h + [b])[3..] == [];
    }
  }

  /** What one more byte does to the pending bytes, their number and their carry. */
  lemma {:induction false} PendingStep(h: seq<byte>, b: byte)
    ensures var p, q := Pending(h), Pending(h + [b]);
      && q == (if |p| == 2 then [] else p + [b])
      && |q| == (if |p| == 2 then 0 else |p| + 1)
      && Carry(q) == (if |p| == 0 then b % 4 * 16 else if |p| == 1 then b % 16 * 4 else 0)
  {
    if |h| >= 3 {
      assert (h + [b])[3..] == h[3..] + [b];
      PendingStep(h[3..], b);
    } else if |h| == 2 {
      assert (h + [b])[3..] == [];
    }
  }

  /** Whole groups of three stand alone. */
  lemma {:induction false} StreamConcat(h: seq<byte>, t: seq<byte>)
    requires Pending(h) == []
    ensures Stream(h + t) == Stream(h) + Stream(t) && Pending(h + t) == Pending(t)
  {
    hide Quad, Enc6;
    if h == [] {
      assert h + t == t;
    } else {
      assert (h + t)[3..] == h[3..] + t;
      StreamConcat(h[3..], t);
      Associate(Quad(h[0], h[1], h[2]), Stream(h[3..]), Stream(t));
    }
  }

  lemma {:induction false} WholeGroups(s: seq<byte>, n: nat)
    requires |s| == 6 * n
    ensures Pending(s) == [] && |Stream(s)| == 8 * n
  {
    if n > 0 {
      assert s[3..][3..] == s[6..];
      WholeGroups(s[6..], n - 1);
    }
  }

  // ---------------------------------------------------------------- feeding in chunks

  /** The characters one call writes when h has been fed before. */
  function Fed(h: seq<byte>, chunk: seq<byte>): seq<byte>
    decreases |chunk|
  {
    if chunk == [] then [] else StepOut(Pending(h), chunk[0]) + Fed(h + [chunk[0]], chunk[1..])
  }

  lemma Cancel(a: seq<byte>, b: seq<byte>, c: seq<byte>)
    requires a + b == a + c
    ensures b == c
  {
    assert b == (a + b)[|a|..] && c == (a + c)[|a|..];
  }

  /** Everything fed and written so far is the stream of the concatenated input. */
  lemma {:induction false} FedExtendsStream(h: seq<byte>, chunk: seq<byte>)
    ensures Stream(h) + Fed(h, chunk) == Stream(h + chunk)
    decreases |chunk|
  {
    if chunk == [] {
      assert h + chunk == h;
    } else {
      var c, rest := chunk[0], chunk[1..];
      StreamStep(h, c);
      FedExtendsStream(h + [c], rest);
      Associate(h, [c], rest);
      assert chunk == [c] + rest;
      Associate(Stream(h), StepOut(Pending(h), c), Fed(h + [c], rest));
    }
  }

  /** The characters written for a sequence of calls, one for each chunk, after h. */
  function FedAll(h: seq<byte>, chunks: seq<seq<byte>>): seq<byte>
    decreases |chunks|
  {
    if chunks == [] then [] else Fed(h, chunks[0]) + FedAll(h + chunks[0], chunks[1..])
  }

  lemma {:induction false} FedAllExtendsStream(h: seq<byte>, chunks: seq<seq<byte>>)
    ensures Stream(h) + FedAll(h, chunks) == Stream(h + Flatten(chunks))
    decreases |chunks|
  {
    if chunks == [] {
      assert h + Flatten(chunks) == h;
    } else {
      var c, rest := chunks[0], chunks[1..];
      FedExtendsStream(h, c);
      FedAllExtendsStream(h + c, rest);
      Associate(h, c, Flatten(rest));
      Associate(Stream(h), Fed(h, c), FedAll(h + c, rest));
    }
  }

  /** However the input is split, empty chunks included, the calls and the trailer give the one-shot encoding. */
  lemma ChunkIndependence(chunks: seq<seq<byte>>)
    ensures FedAll([], chunks) + Trailer(Pending(Flatten(chunks))) == Encode(Flatten(chunks))
  {
    FedAllExtendsStream([], chunks);
    assert [] + Flatten(chunks) == Flatten(chunks);
    assert Stream([]) == [];
    StreamThenTrailer(Flatten(chunks));
  }

  // ---------------------------------------------------------------- from a group boundary on

  /** From a group boundary, whole groups are written as they stand. */
  lemma FedOfWhole(h: seq<byte>, a: seq<byte>, b: seq<byte>)
    requires Pending(h) == [] && Pending(a) == []
    ensures Fed(h, a + b) == Stream(a) + Fed(h + a, b)
  {
    FedExtendsStream(h, a + b);
    FedExtendsStream(h + a, b);
    StreamConcat(h, a);
    Associate(h, a, b);
    Associate(Stream(h), Stream(a), Fed(h + a, b));
    Cancel(Stream(h), Fed(h, a + b), Stream(a) + Fed(h + a, b));
  }

  /** From a group boundary, n rounds of the fast loop fit in the room the chunk needs. */
  lemma FedRoom(h: seq<byte>, t: seq<byte>, n: nat)
    requires Pending(h) == [] && 6 * n <= |t|
    ensures |Fed(h, t)| >= 8 * n
  {
    WholeGroups(t[..6 * n], n);
    FedOfWhole(h, t[..6 * n], t[6 * n..]);
    assert t == t[..6 * n] + t[6 * n..];
  }

  lemma FedStep(h: seq<byte>, chunk: seq<byte>)
    requires chunk != []
    ensures Fed(h, chunk) == StepOut(Pending(h), chunk[0]) + Fed(h + [chunk[0]], chunk[1..])
  {
  }

  lemma FedNothing(h: seq<byte>, chunk: seq<byte>)
    requires chunk == []
    ensures Fed(h, chunk) == []
  {
  }

  /** The carry is what the pending bytes contribute to the next character. */
  lemma CarryBits(p: seq<byte>)
    requires |p| < 3
    ensures |p| == 1 ==> Carry(p) == p[0] % 4 * 16
    ensures |p| == 2 ==> Carry(p) == p[1] % 16 * 4
  {
  }

  lemma StepOutIs(p: seq<byte>, b: byte)
    requires |p| < 3
    ensures |p| == 0 ==> StepOut(p, b) == [Enc6(b / 4)]
    ensures |p| == 1 ==> StepOut(p, b) == [Enc6(Carry(p) + b / 16)]
    ensures |p| == 2 ==> StepOut(p, b) == [Enc6(Carry(p) + b / 64), Enc6(b % 64)]
  {
    hide Enc6;
  }
}
