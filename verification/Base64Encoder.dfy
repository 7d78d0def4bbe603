/** The encoder of base64.c: `base64_state`, the switch-and-loop machine, and the eight-bytes-at-a-time fast loop. */
module Base64Encoder {
  import opened Common
  import opened Base64
  import opened Bits

  // ---------------------------------------------------------------- the fast loop

  /** Six bytes make eight characters. */
  function Oct(s: seq<byte>): seq<byte>
    requires |s| == 6
  {
    Quad(s[0], s[1], s[2]) + Quad(s[3], s[4], s[5])
  }

  /** Eight bytes as the big-endian number the byte swap produces. */
  function BigEndian64(s: seq<byte>): int
    requires |s| == 8
  {
    BigEndian24(s[0], s[1], s[2]) * 0x100_0000_0000 + BigEndian24(s[3], s[4], s[5]) * 0x1_0000
    + s[6] as int * 0x100 + s[7] as int
  }

  function BigEndian24(a: int, b: int, c: int): int { a * 0x1_0000 + b * 0x100 + c }

  /** The shifted values the four 12-bit indices are the low parts of. */
  lemma Shifts(a: int, b: int, low: int)
    requires 0 <= a < 0x100_0000 && 0 <= b < 0x100_0000 && 0 <= low < 0x1_0000
    ensures var v := a * 0x100_0000_0000 + b * 0x1_0000 + low;
      && v / 0x10_0000_0000_0000 % 0x1000 == a / 0x1000
      && v / 0x100_0000_0000 % 0x1000 == a % 0x1000
      && v / 0x1000_0000 % 0x1000 == b / 0x1000
      && v / 0x1_0000 % 0x1000 == b % 0x1000
  {
    var v := a * 0x100_0000_0000 + b * 0x1_0000 + low;
    HighShifts(v, a / 0x1000, a % 0x1000, b * 0x1_0000 + low);
    LowShifts(v, a, b / 0x1000, b % 0x1000, low);
  }

  /** The two indices of the first three bytes. */
  lemma HighShifts(v: int, h: int, l: int, rest: int)
    requires 0 <= h < 0x1000 && 0 <= l < 0x1000 && 0 <= rest < 0x100_0000_0000
    requires v == (h * 0x1000 + l) * 0x100_0000_0000 + rest
    ensures v / 0x10_0000_0000_0000 % 0x1000 == h && v / 0x100_0000_0000 % 0x1000 == l
  {
    Quotient(v, h, l * 0x100_0000_0000 + rest, 0x10_0000_0000_0000);
    Quotient(v, h * 0x1000 + l, rest, 0x100_0000_0000);
    Quotient(h * 0x1000 + l, h, l, 0x1000);
  }

  /** The two indices of the next three. */
  lemma LowShifts(v: int, a: int, h: int, l: int, low: int)
    requires 0 <= a && 0 <= h < 0x1000 && 0 <= l < 0x1000 && 0 <= low < 0x1_0000
    requires v == a * 0x100_0000_0000 + (h * 0x1000 + l) * 0x1_0000 + low
    ensures v / 0x1000_0000 % 0x1000 == h && v / 0x1_0000 % 0x1000 == l
  {
    Quotient(v, a * 0x1000 + h, l * 0x1_0000 + low, 0x1000_0000);
    Quotient(v, a * 0x100_0000 + h * 0x1000 + l, low, 0x1_0000);
    Quotient(a * 0x1000 + h, a, h, 0x1000);
    Quotient(a * 0x100_0000 + h * 0x1000 + l, a * 0x1000 + h, l, 0x1000);
  }

  lemma Quotient(v: int, q: int, r: int, d: int)
    requires d in {64, 0x1000, 0x1_0000, 0x1000_0000, 0x100_0000_0000, 0x10_0000_0000_0000}
    requires v == q * d + r && 0 <= r < d
    ensures v / d == q && v % d == r
  {
    if d == 64 {
    } else if d == 0x1000 {
    } else if d == 0x1_0000 {
    } else if d == 0x1000_0000 {
    } else if d == 0x100_0000_0000 {
    } else {
    }
  }

  /** The two characters of each of the two indices cut from three bytes are the characters of the three bytes. */
  lemma Enc12Pairs(a: byte, b: byte, c: byte)
    ensures var v := BigEndian24(a, b, c);
      0 <= v < 0x100_0000 && Enc12(v / 0x1000) + Enc12(v % 0x1000) == Quad(a, b, c)
  {
    var v := BigEndian24(a, b, c);
    var hi, lo := a as int * 16 + b as int / 16, b as int % 16 * 256 + c as int;
    Quotient(v, hi, lo, 0x1000);
    Quotient(hi, a as int / 4, a as int % 4 * 16 + b as int / 16, 64);
    Quotient(lo, b as int % 16 * 4 + c as int / 64, c as int % 64, 64);
  }

  /** The four table entries of one inner step. */
  lemma InnerEntries(s: seq<byte>)
    requires |s| == 8
    ensures var v := BigEndian64(s);
      Enc12(v / 0x10_0000_0000_0000 % 0x1000) + Enc12(v / 0x100_0000_0000 % 0x1000)
      + (Enc12(v / 0x1000_0000 % 0x1000) + Enc12(v / 0x1_0000 % 0x1000)) == Oct(s[..6])
  {
    hide Enc12, Quad, BigEndian24;
    assert forall i :: 0 <= i < 6 ==> s[..6][i] == s[i];
    Enc12Pairs(s[0], s[1], s[2]);
    Enc12Pairs(s[3], s[4], s[5]);
    Shifts(BigEndian24(s[0], s[1], s[2]), BigEndian24(s[3], s[4], s[5]), s[6] as int * 0x100 + s[7] as int);
  }

  /** `enc_loop_generic_64_inner`: an eight-byte load, which the caller keeps in bounds, for six bytes of progress. */
  method EncLoopInner(src: seq<byte>, i: nat, out: array<byte>, o: nat)
    requires i + 8 <= |src| && o + 8 <= out.Length
    modifies out
    ensures out[..o + 8] == old(out[..o]) + Oct(src[i..i + 6])
  {
    hide And, Shr, Enc12, BigEndian64, Oct;
    var v := BigEndian64(src[i..i + 8]);
    LoadedIsNatural(src[i..i + 8]);
    TwelveBits(v);
    InnerEntries(src[i..i + 8]);
    assert src[i..i + 8][..6] == src[i..i + 6];
    var e0, e1 := Enc12(And(Shr(v, 52), 0xFFF)), Enc12(And(Shr(v, 40), 0xFFF));
    var e2, e3 := Enc12(And(Shr(v, 28), 0xFFF)), Enc12(And(Shr(v, 16), 0xFFF));
    StoreFour(out, o, e0, e1, e2, e3);
  }

  lemma LoadedIsNatural(s: seq<byte>)
    requires |s| == 8
    ensures BigEndian64(s) >= 0
  {
  }

  /** The four two-byte stores. */
  method StoreFour(out: array<byte>, o: nat, e0: seq<byte>, e1: seq<byte>, e2: seq<byte>, e3: seq<byte>)
    requires |e0| == |e1| == |e2| == |e3| == 2 && o + 8 <= out.Length
    modifies out
    ensures out[..o + 8] == old(out[..o]) + (e0 + e1 + (e2 + e3))
  {
    Store2(out, o, e0);
    Store2(out, o + 2, e1);
    Store2(out, o + 4, e2);
    Store2(out, o + 6, e3);
  }

  /** `memcpy(out + o, table entry, 2)`. */
  method Store2(out: array<byte>, o: nat, two: seq<byte>)
    requires |two| == 2 && o + 2 <= out.Length
    modifies out
    ensures out[..o + 2] == old(out[..o]) + two
  {
    out[o], out[o + 1] := two[0], two[1];
  }

  // The straight-line runs of two, four and eight inner steps.

  method EncTwice(src: seq<byte>, i: nat, out: array<byte>, o: nat)
    requires i + 14 <= |src| && o + 16 <= out.Length
    modifies out
    ensures out[..o + 16] == old(out[..o]) + Stream(src[i..i + 12])
  {
    hide *;
    EncLoopInner(src, i, out, o);
    EncLoopInner(src, i + 6, out, o + 8);
    StreamOfOct(src, i);
    StreamOfOct(src, i + 6);
    StreamJoin(src, i, 1, 2);
  }

  method EncFourTimes(src: seq<byte>, i: nat, out: array<byte>, o: nat)
    requires i + 26 <= |src| && o + 32 <= out.Length
    modifies out
    ensures out[..o + 32] == old(out[..o]) + Stream(src[i..i + 24])
  {
    hide *;
    EncTwice(src, i, out, o);
    EncTwice(src, i + 12, out, o + 16);
    StreamJoin(src, i, 2, 4);
  }

  method EncEightTimes(src: seq<byte>, i: nat, out: array<byte>, o: nat)
    requires i + 50 <= |src| && o + 64 <= out.Length
    modifies out
    ensures out[..o + 64] == old(out[..o]) + Stream(src[i..i + 48])
  {
    hide *;
    EncFourTimes(src, i, out, o);
    EncFourTimes(src, i + 24, out, o + 32);
    StreamJoin(src, i, 4, 8);
  }

  lemma StreamOfOct(src: seq<byte>, i: nat)
    requires i + 6 <= |src|
    ensures Stream(src[i..i + 6]) == Oct(src[i..i + 6])
  {
    var s := src[i..i + 6];
    assert Stream(s[3..]) == Quad(s[3], s[4], s[5]) + Stream(s[3..][3..]);
    assert s[3..][3..] == [];
  }

  /** Rounds 0 to m and m to n together are rounds 0 to n. */
  lemma StreamJoin(src: seq<byte>, i: nat, m: nat, n: nat)
    requires m <= n && i + 6 * n <= |src|
    ensures Stream(src[i..i + 6 * n]) == Stream(src[i..i + 6 * m]) + Stream(src[i + 6 * m..i + 6 * n])
  {
    assert src[i..i + 6 * n] == src[i..i + 6 * m] + src[i + 6 * m..i + 6 * n];
    WholeGroups(src[i..i + 6 * m], m);
    StreamConcat(src[i..i + 6 * m], src[i + 6 * m..i + 6 * n]);
  }

  /** The rounds of the fast loop over slen bytes. */
  function Rounds(slen: nat): (n: nat)
    ensures 6 * n <= slen && (slen >= 8 ==> n > 0 && 6 * n + 2 <= slen < 6 * n + 8)
  {
    if slen < 8 then 0 else (slen - 2) / 6
  }

  /** `enc_loop_generic_64` on src[i..]: exactly (slen - 2) / 6 rounds, of six bytes and eight characters each. */
  method EncLoop(src: seq<byte>, i: nat, out: array<byte>, o: nat) returns (rounds: nat)
    requires i <= |src| && o + 8 * Rounds(|src| - i) <= out.Length
    modifies out
    ensures rounds == Rounds(|src| - i)
    ensures out[..o + 8 * rounds] == old(out[..o]) + Stream(src[i..i + 6 * rounds])
  {
    if |src| - i < 8 {
      assert src[i..i] == [] && Stream([]) == [];
      return 0;
    }
    rounds := (|src| - i - 2) / 6;
    EncRounds(src, i, out, o, rounds);
  }

  predicate IsTurn(n: nat) { n == 1 || n == 2 || n == 4 || n == 8 }

  /** How many inner steps the turn of the do-while with this many rounds left makes. */
  function TurnLength(rounds: nat): (n: nat)
    requires rounds > 0
    ensures IsTurn(n) && 0 < n <= rounds
  {
    if rounds >= 8 then 8 else if rounds >= 4 then 4 else if rounds >= 2 then 2 else 1
  }

  /** The do-while: every load in bounds, because two bytes are left after the last round. */
  method EncRounds(src: seq<byte>, i: nat, out: array<byte>, o: nat, all: nat)
    requires 0 < all && i + 6 * all + 2 <= |src| && o + 8 * all <= out.Length
    modifies out
    ensures out[..o + 8 * all] == old(out[..o]) + Stream(src[i..i + 6 * all])
  {
    hide *;
    var rounds, done := all, 0;
    ghost var lead := out[..o];
    NoRounds(src, i);
    while rounds > 0
      invariant done == all - rounds && 0 <= rounds <= all
      invariant out[..o + 8 * done] == lead + RoundsOf(src, i, done)
      decreases rounds
    {
      var step := TurnLength(rounds);
      EncTurn(src, i, out, o, done, step, lead);
      rounds, done := rounds - step, done + step;
    }
    RoundsAre(src, i, all);
  }

  /** The characters of n rounds. */
  function RoundsOf(src: seq<byte>, i: nat, n: nat): seq<byte>
    requires i + 6 * n <= |src|
  {
    Stream(src[i..i + 6 * n])
  }

  lemma RoundsAre(src: seq<byte>, i: nat, n: nat)
    requires i + 6 * n <= |src|
    ensures RoundsOf(src, i, n) == Stream(src[i..i + 6 * n])
  {
    hide Stream;
  }

  lemma NoStream()
    ensures Stream([]) == []
  {
  }

  lemma NoRounds(src: seq<byte>, i: nat)
    requires i <= |src|
    ensures RoundsOf(src, i, 0) == []
  {
    assert src[i..i + 6 * 0] == [];
  }

  /** One turn, after done rounds. */
  method EncTurn(src: seq<byte>, i: nat, out: array<byte>, o: nat, done: nat, step: nat, ghost lead: seq<byte>)
    requires IsTurn(step) && i + 6 * (done + step) + 2 <= |src| && o + 8 * (done + step) <= out.Length
    requires out[..o + 8 * done] == lead + RoundsOf(src, i, done)
    modifies out
    ensures out[..o + 8 * (done + step)] == lead + RoundsOf(src, i, done + step)
  {
    hide *;
    RoundsAre(src, i, done);
    RoundsAre(src, i, done + step);
    var j, p := i + 6 * done, o + 8 * done;
    EncStep(src, j, out, p, step);
    StreamJoin(src, i, done, done + step);
  }

  /** One turn of the do-while: the longest straight-line run the remaining rounds allow. */
  method EncStep(src: seq<byte>, i: nat, out: array<byte>, o: nat, step: nat)
    requires IsTurn(step) && i + 6 * step + 2 <= |src| && o + 8 * step <= out.Length
    modifies out
    ensures out[..o + 8 * step] == old(out[..o]) + Stream(src[i..i + 6 * step])
  {
    if step == 8 {
      EncEightTimes(src, i, out, o);
    } else if step == 4 {
      EncFourTimes(src, i, out, o);
    } else if step == 2 {
      EncTwice(src, i, out, o);
    } else {
      EncLoopInner(src, i, out, o);
      StreamOfOct(src, i);
    }
  }

  // ---------------------------------------------------------------- the state machine

  /** `struct base64_state`, with everything it has been fed. */
  class Base64State {
    var bytes: nat
    var carry: int
    ghost var fed: seq<byte>

    /** bytes counts the pending bytes and carry holds exactly their bits that are not yet written. */
    ghost predicate Valid()
      reads this
    {
      bytes == |Pending(fed)| && 0 <= carry < 64 && (bytes > 0 ==> carry == Carry(Pending(fed)))
    }

    constructor ()
      ensures Valid() && fed == []
    {
      bytes, carry, fed := 0, 0, [];
    }

    /** `base64_stream_encode_plain`: writes the characters the chunk adds to what was fed before. */
    method EncodePlain(src: seq<byte>, out: array<byte>, at: nat) returns (outLen: nat)
      requires Valid() && at + |Fed(fed, src)| <= out.Length
      modifies this, out
      ensures Valid() && fed == old(fed) + src
      ensures outLen == |Fed(old(fed), src)|
      ensures out[..at + outLen] == old(out[..at]) + Fed(old(fed), src)
    {
      hide Fed, Stream, Pending;
      ghost var whole := out[..at] + Fed(fed, src);
      var i, o := 0, at;
      assert src[0..] == src;
      while true
        invariant Valid() && i <= |src| && at <= o <= out.Length && fed == old(fed) + src[..i]
        invariant out[..o] + Fed(fed, src[i..]) == whole
        decreases |src| - i
      {
        i, o := FastLoop(src, i, out, o);
        if i == |src| {
          break;
        }
        var n := Step(src, i, out, o);
        i, o := i + 1, o + n;
      }
      FedNothing(fed, src[|src|..]);
      assert src[..|src|] == src;
      assert out[..o] == whole;
      outLen := o - at;
    }

    /** The entry of case 0: as many whole rounds of the fast loop as fit; the other cases pass it by. */
    method FastLoop(src: seq<byte>, i: nat, out: array<byte>, o: nat) returns (i': nat, o': nat)
      requires Valid() && i <= |src| && o + |Fed(fed, src[i..])| <= out.Length
      modifies this`fed, out
      ensures Valid() && i <= i' <= |src| && o <= o' <= out.Length && fed == old(fed) + src[i..i']
      ensures out[..o'] + Fed(fed, src[i'..]) == old(out[..o]) + Fed(old(fed), src[i..])
    {
      hide Fed, Stream, Pending;
      i', o' := i, o;
      assert src[i..i] == [] && fed + [] == fed;
      if bytes == 0 {
        ghost var n := Rounds(|src| - i);
        ghost var whole := src[i..i + 6 * n];
        FedRoom(fed, src[i..], n);
        WholeGroups(whole, n);
        StreamConcat(fed, whole);
        FedOfWhole(fed, whole, src[i + 6 * n..]);
        assert src[i..] == whole + src[i + 6 * n..];
        var rounds := EncLoop(src, i, out, o);
        i', o' := i + 6 * rounds, o + 8 * rounds;
        fed := fed + whole;
      }
    }

    /** One of the three cases: one byte in, one or two characters out. */
    method Step(src: seq<byte>, i: nat, out: array<byte>, o: nat) returns (n: nat)
      requires Valid() && i < |src| && o + |Fed(fed, src[i..])| <= out.Length
      modifies this, out
      ensures Valid() && fed == old(fed) + [src[i]] && o + n <= out.Length
      ensures out[..o + n] + Fed(fed, src[i + 1..]) == old(out[..o]) + Fed(old(fed), src[i..])
    {
      assert src[i..][1..] == src[i + 1..];
      FedStep(fed, src[i..]);
      n := StepByte(src[i], out, o);
    }

    /** The body of the three cases. */
    method StepByte(b: byte, out: array<byte>, o: nat) returns (n: nat)
      requires Valid() && o + |StepOut(Pending(fed), b)| <= out.Length
      modifies this, out
      ensures Valid() && fed == old(fed) + [b]
      ensures n == |StepOut(Pending(old(fed)), b)|
      ensures out[..o + n] == old(out[..o]) + StepOut(Pending(old(fed)), b)
    {
      hide Pending, Carry, And, Or, Shl, Shr, StepOut, Enc6;
      ghost var after := fed + [b];
      StepOutIs(Pending(fed), b);
      PendingStep(fed, b);
      CarryBits(Pending(fed));
      if bytes == 0 {
        FirstGroup(b);
        out[o] := Enc6(Shr(b, 2));
        assert out[..o + 1] == out[..o] + [out[o]];
        carry := And(Shl(b, 4), 0x30);
        bytes := 1;
        n := 1;
      } else if bytes == 1 {
        SecondGroup(carry / 16, b);
        out[o] := Enc6(Or(carry, Shr(b, 4)));
        assert out[..o + 1] == out[..o] + [out[o]];
        carry := And(Shl(b, 2), 0x3C);
        bytes := 2;
        n := 1;
      } else {
        ThirdGroup(carry / 4, b);
        out[o] := Enc6(Or(carry, Shr(b, 6)));
        out[o + 1] := Enc6(And(b, 0x3F));
        assert out[..o + 2] == out[..o] + [out[o], out[o + 1]];
        bytes := 0;
        n := 2;
      }
      fed := after;
    }

    /** `base64_stream_encode_final`: the trailer for what is pending. */
    method EncodeFinal(out: array<byte>, at: nat) returns (outLen: nat)
      requires Valid() && at + |Trailer(Pending(fed))| <= out.Length
      modifies out
      ensures outLen == |Trailer(Pending(fed))|
      ensures out[..at + outLen] == old(out[..at]) + Trailer(Pending(fed))
    {
      if bytes == 1 {
        out[at], out[at + 1], out[at + 2] := Enc6(carry), PAD, PAD;
        return 3;
      }
      if bytes == 2 {
        out[at], out[at + 1] := Enc6(carry), PAD;
        return 2;
      }
      return 0;
    }
  }

  /** `base64_encode`: section 4 of RFC 4648, for every input. */
  method Base64Encode(src: seq<byte>, out: array<byte>) returns (outLen: nat)
    requires |Encode(src)| <= out.Length
    modifies out
    ensures outLen == |Encode(src)| && out[..outLen] == Encode(src)
  {
    OneShot(src);
    hide *;
    var state := new Base64State();
    var s := state.EncodePlain(src, out, 0);
    assert [] + src == src && out[..0] == [];
    var t := state.EncodeFinal(out, s);
    outLen := s + t;
  }

  lemma OneShot(src: seq<byte>)
    ensures Fed([], src) + Trailer(Pending(src)) == Encode(src)
  {
    hide *;
    FedExtendsStream([], src);
    NoStream();
    assert [] + src == src && Stream([]) + Fed([], src) == Fed([], src);
    StreamThenTrailer(src);
  }
}
