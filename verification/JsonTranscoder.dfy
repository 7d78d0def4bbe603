/** `java_json_to_jstring_checked`: decoding a segment list through a 256-byte window. */
module JsonTranscoder {
  import opened Common
  import opened Unicode
  import opened Transcoder
  import opened JsonSegments

  const WINDOW: nat := 256

  /** The window: a 256-byte buffer over a list, of which buffer[cursor..len] is read but not yet decoded. */
  class Window {
    const buffer: array<byte>
    const it: JsonIterator
    var len: nat
    var cursor: nat
    var eof: bool

    /** What is still to be decoded: the unread part of the window, then the unread part of the list. */
    ghost var todo: seq<byte>

    ghost predicate Valid()
      reads this, buffer, it, it.list.segs, it.list.Blocks()
    {
      && it.Valid() && buffer !in it.list.Blocks()
      && buffer.Length == WINDOW
      && cursor <= len <= WINDOW
      // until the list is used up every read has filled the window
      && (!eof ==> len == WINDOW || (len == 0 && cursor == 0))
      && (eof ==> it.Remaining() == [])
      && todo == buffer[cursor..len] + it.Remaining()
    }

    constructor (seg: JsonSegment, ghost list: Segments)
      requires list.Linked() && list.segs[0] == seg
      ensures Valid() && fresh(this) && fresh(buffer) && fresh(it) && it.list == list && buffer.Length == 256
      ensures todo == list.Bytes() && len == cursor == 0 && !eof
    {
      hide Rest, Segments.Bytes, Segments.Holds;
      it := new JsonIterator(seg, list);
      buffer := new byte[WINDOW];
      len, cursor, eof := 0, 0, false;
      todo := list.Bytes();
    }

    /** The first half of the refill. The two regions of the `memcpy` do not overlap. */
    method Compact()
      requires Valid() && len - cursor < 4 && !eof
      modifies this`len, this`cursor, buffer
      ensures it.Valid() && it.Remaining() == old(it.Remaining())
      ensures cursor == 0 && len < 4 && todo == buffer[..len] + it.Remaining()
    {
      var left := len - cursor;
      assert left <= cursor;
      MemcpyWithin(buffer, cursor, left);
      cursor, len := 0, left;
    }

    /** The refill: compact, then read as much as the window takes. */
    method Refill()
      requires Valid() && len - cursor < 4 && !eof
      modifies this`len, this`cursor, this`eof, buffer, it`seg, it`pos, it`k
      ensures Valid() && cursor == 0 && (len >= 4 || eof)
    {
      Compact();
      ghost var kept, rest := buffer[..len], it.Remaining();
      var maxRead := WINDOW - len;
      var read := it.Read(buffer, len, maxRead);
      len := len + read;
      if read < maxRead {
        eof := true;
      }
      assert buffer[0..len] == buffer[..len] == kept + rest[..read];
      Regroup(kept, rest, read);
    }

    /** The head of the loop: four bytes to look at, or all that there are. */
    method Ensure()
      requires Valid()
      modifies this`len, this`cursor, this`eof, buffer, it`seg, it`pos, it`k
      ensures Valid() && (len - cursor >= 4 || eof)
    {
      if len - cursor < 4 && !eof {
        Refill();
      }
    }

    /** Decoding one code point of the window is decoding one code point of everything that is left. */
    lemma WindowIsEnough()
      requires Valid() && cursor < len && (len - cursor >= 4 || eof)
      ensures todo != [] && NextUtf8(todo) == NextUtf8(buffer[cursor..len])
      ensures DecodedStep(todo) == DecodedStep(buffer[cursor..len])
    {
      var w, r := buffer[cursor..len], it.Remaining();
      if eof {
        assert w + r == w;
      } else {
        assert (w + r)[..4] == w[..4];
        NextUtf8Local(w + r, w);
      }
    }

    /** The rest of the loop body: what has been written and what is left still make up the result. */
    method DecodeNext(out: array<unit16>, outLen: nat, outCap: nat) returns (n: nat, short: bool)
      requires Valid() && cursor < len && (len - cursor >= 4 || eof)
      requires outLen <= outCap < out.Length
      requires out as object != buffer && out as object !in it.list.Blocks()
      modifies this`cursor, this`todo, out
      ensures Valid() && |todo| + n <= |old(todo)| && |todo| < |old(todo)|
      ensures short == (outCap < outLen + n)
      ensures !short ==> out[..outLen + n] + Utf8ToUtf16(todo) == old(out[..outLen]) + Utf8ToUtf16(old(todo))
    {
      WindowIsEnough();
      DecodeProgress(out[..outLen], todo);
      ghost var was, at := todo, cursor;
      var next;
      next, n, short := DecodeOne(buffer, len, cursor, out, outLen, outCap);
      Advance(next);
      assert todo == was[NextUtf8(was).adv..];
    }

    /** The window with its cursor moved on. */
    method Advance(next: nat)
      requires Valid() && cursor <= next <= len && len - cursor <= |todo|
      modifies this`cursor, this`todo
      ensures Valid() && cursor == next && todo == old(todo[next - cursor..])
    {
      hide Segments.Linked, Segments.Holds, Segments.Blocks, JsonIterator.Remaining;
      LeftAfter(next);
      NoBlock();
      cursor, todo := next, todo[next - cursor..];
    }

    lemma NoBlock()
      ensures this as object !in it.list.Blocks()
    {
    }

    lemma LeftAfter(next: nat)
      requires Valid() && cursor <= next <= len && len - cursor <= |todo|
      ensures todo[next - cursor..] == buffer[next..len] + it.Remaining()
    {
      hide Rest, Segments.Holds;
      var k := next - cursor;
      DropFront(buffer[cursor..len], it.Remaining(), k);
      assert buffer[cursor..len][k..] == buffer[next..len];
    }
  }

  lemma DropFront<T>(w: seq<T>, r: seq<T>, k: nat)
    requires k <= |w|
    ensures (w + r)[k..] == w[k..] + r
  {
  }

  lemma Regroup<T>(a: seq<T>, b: seq<T>, n: nat)
    requires n <= |b|
    ensures a + b[..n] + b[n..] == a + b
  {
  }

  /** `memcpy(buffer, buffer + from, n)`: defined only when the two regions are disjoint. */
  method MemcpyWithin(buffer: array<byte>, from: nat, n: nat)
    requires n <= from && from + n <= buffer.Length
    modifies buffer
    ensures buffer[..n] == old(buffer[from..from + n])
  {
    for i := 0 to n
      invariant buffer[..i] == old(buffer[from..from + i])
      invariant buffer[from..from + n] == old(buffer[from..from + n])
    {
      assert buffer[from..from + n][i] == buffer[from + i];
      buffer[i] := buffer[from + i];
    }
  }

  /**
    `java_json_to_jstring_checked`: for every segment list, exactly what the whole-buffer decoder gives on the
    concatenation of the segments.
    */
  method JavaJsonToJString(seg: JsonSegment, ghost list: Segments) returns (r: JString)
    requires list.Linked() && list.segs[0] == seg
    ensures r == JStringOf(list.Bytes())
  {
    var outCap := JsonLength(seg, list);
    var outLen: nat := 0;
    if outCap > SIZE_MAX / 2 - 1 {
      return Thrown(TooLarge);
    }
    var window := new Window(seg, list);
    var out := new unit16[outCap + 1];
    outLen := DecodeAll(window, out, outCap);
    r := NewJString(out, outLen);
  }

  lemma NothingLeft()
    ensures Utf8ToUtf16([]) == []
  {
  }

  /** The loop of `java_json_to_jstring_checked`; its room check never fails. */
  method DecodeAll(window: Window, out: array<unit16>, outCap: nat) returns (outLen: nat)
    requires window.Valid() && |window.todo| <= outCap < out.Length
    requires out as object != window.buffer && out as object !in window.it.list.Blocks()
    modifies window, window.buffer, window.it, out
    ensures outLen <= outCap && out[..outLen] == Utf8ToUtf16(old(window.todo))
  {
    hide Utf8ToUtf16;
    NothingLeft();
    outLen := 0;
    ghost var whole := Utf8ToUtf16(window.todo);
    while true
      invariant window.Valid() && outLen + |window.todo| <= outCap
      invariant out[..outLen] + Utf8ToUtf16(window.todo) == whole
      decreases |window.todo|
    {
      window.Ensure();
      if window.len == window.cursor {
        break;
      }
      var n, short := window.DecodeNext(out, outLen, outCap);
      if short {
        assert false;
      }
      outLen := outLen + n;
    }
    assert window.todo == [];
  }
}
