/** The growable list of byte segments of json.h and the iterator that reads it. */
module JsonSegments {
  import opened Common

  const MIN_JSON_SEGMENT_SIZE: nat := 216

  /** `struct json_segment`: size bytes of data, the first len of them used. */
  class JsonSegment {
    const size: nat
    const data: array<byte>
    var len: nat
    var next: JsonSegment?

    constructor (size: nat)
      ensures this.size == size && data.Length == size && fresh(data)
      ensures len == 0 && next == null
    {
      this.size := size;
      data := new byte[size];
      len := 0;
      next := null;
    }
  }

  // ---------------------------------------------------------------- the list as one byte string

  /** A whole list, first segment to last, and the bytes each segment holds. */
  datatype Segments = Segments(segs: seq<JsonSegment>, chunks: seq<seq<byte>>) {

    /** Everything that has been appended. */
    ghost function Bytes(): seq<byte> { Flatten(chunks) }

    ghost function Blocks(): set<object> { set s | s in segs :: s.data as object }

    ghost predicate Holds(i: nat)
      requires i < |segs| == |chunks|
      reads {segs[i]}`len, segs[i].data
    {
      && segs[i].size == segs[i].data.Length <= UINT32_MAX
      && segs[i].len == |chunks[i]| <= segs[i].size
      && segs[i].data[..segs[i].len] == chunks[i]
    }

    /** The segments are linked in order and hold the chunks. */
    ghost predicate Linked()
      reads segs, Blocks()
    {
      && 0 < |segs| == |chunks|
      && (forall i :: 0 <= i < |segs| ==> Holds(i))
      && (forall i :: 0 <= i < |segs| - 1 ==> segs[i].next == segs[i + 1])
      && segs[|segs| - 1].next == null
    }

    /** seg is the last segment and can be written without touching the others. */
    ghost predicate EndsIn(seg: JsonSegment)
      reads segs, Blocks()
    {
      && Linked() && seg == segs[|segs| - 1]
      && (forall i :: 0 <= i < |segs| - 1 ==> segs[i] != seg && segs[i].data != seg.data)
    }

    /** after is this list, first segment and all, with data at its end. */
    ghost predicate GrowsTo(after: Segments, data: seq<byte>) {
      && segs != [] && after.segs != [] && after.segs[0] == segs[0]
      && after.Bytes() == Bytes() + data
    }

    lemma GrowsTwice(mid: Segments, after: Segments, data: seq<byte>, more: seq<byte>)
      requires GrowsTo(mid, data) && mid.GrowsTo(after, more)
      ensures GrowsTo(after, data + more)
    {
      assert Bytes() + data + more == Bytes() + (data + more);
    }
  }

  // ---------------------------------------------------------------- growing

  /** `json_seg_new`. */
  method JsonSegNew(minSize: nat) returns (seg: JsonSegment?)
    ensures seg == null <==> minSize > 0xFFFF_FFFF
    ensures seg != null ==> fresh(seg) && fresh(seg.data) && seg.size == seg.data.Length <= UINT32_MAX
    ensures seg != null ==> seg.size == Max(minSize, 216)
    ensures seg != null ==> seg.len == 0 && seg.next == null
  {
    if minSize > UINT32_MAX {
      return null;
    }
    var size := if minSize < MIN_JSON_SEGMENT_SIZE then MIN_JSON_SEGMENT_SIZE else minSize;
    seg := new JsonSegment(size);
  }

  /** `_json_seg_ensure` on the last segment of a list: a last segment with room for dataLen more bytes. */
  method JsonSegEnsure(seg: JsonSegment?, dataLen: nat, ghost list: Segments)
    returns (r: JsonSegment?, ghost after: Segments)
    requires seg != null ==> list.EndsIn(seg)
    modifies if seg == null then {} else {seg}
    ensures r == null <==> seg == null || dataLen > UINT32_MAX
    ensures r != null ==> after.EndsIn(r) && dataLen <= r.size - r.len && list.GrowsTo(after, [])
    ensures r != null ==> r == seg || (fresh(r) && fresh(r.data))
    ensures r != null ==>
      if dataLen <= old(seg.size - seg.len) then r == seg else r.size == (if dataLen < 216 then 216 else dataLen) && r.len == 0
  {
    after := list;
    if seg == null {
      return null, list;
    }
    if dataLen > UINT32_MAX {
      return null, list;
    }
    var avail := seg.size - seg.len;
    if avail >= dataLen {
      return seg, list;
    }
    var newSeg := JsonSegNew(dataLen);
    seg.next := newSeg;
    after := Segments(list.segs + [newSeg], list.chunks + [[]]);
    FlattenAppend(list.chunks, [[]]);
    forall i | 0 <= i < |after.segs| ensures after.Holds(i) {
      if i < |list.segs| {
        assert old(list.Holds(i));
      }
    }
    return newSeg, after;
  }

  /** Writes into the room `_json_seg_ensure` made: `memcpy` and the advance of `len`. */
  method Fill(seg: JsonSegment, data: seq<byte>, ghost list: Segments) returns (ghost after: Segments)
    requires list.EndsIn(seg) && |data| <= seg.size - seg.len
    modifies seg`len, seg.data
    ensures after.EndsIn(seg) && list.GrowsTo(after, data) && after.segs == list.segs
  {
    ghost var n := |list.chunks| - 1;
    after := Segments(list.segs, list.chunks[..n] + [list.chunks[n] + data]);
    assert list.Holds(n);
    Copy(seg.data, seg.len, data);
    seg.len := seg.len + |data|;
    assert after.Holds(n);
    forall i | 0 <= i < n ensures after.Holds(i) {
      assert old(list.Holds(i));
    }
    FlattenLast(list.chunks, data);
  }

  lemma {:induction false} FlattenLast(chunks: seq<seq<byte>>, data: seq<byte>)
    requires chunks != []
    ensures var n := |chunks| - 1;
      Flatten(chunks[..n] + [chunks[n] + data]) == Flatten(chunks) + data
  {
    if |chunks| > 1 {
      var n := |chunks| - 1;
      FlattenLast(chunks[1..], data);
      assert chunks[1..][..n - 1] == chunks[..n][1..];
      assert (chunks[..n] + [chunks[n] + data])[1..] == chunks[..n][1..] + [chunks[n] + data];
    }
  }

  /** `json_append`: a copy of data at the end of the list. */
  method JsonAppend(seg: JsonSegment?, data: seq<byte>, ghost list: Segments)
    returns (r: JsonSegment?, ghost after: Segments)
    requires seg != null ==> list.EndsIn(seg)
    modifies if seg == null then {} else {seg, seg.data}
    ensures r == null <==> seg == null || |data| > 0xFFFF_FFFF
    ensures r != null ==> after.EndsIn(r) && list.GrowsTo(after, data)
    ensures r != null ==> r == seg || (fresh(r) && fresh(r.data))
  {
    r, after := JsonSegEnsure(seg, |data|, list);
    if r == null {
      return;
    }
    after := Fill(r, data, after);
  }

  /** `memcpy(dst + at, data, |data|)`. */
  method Copy(dst: array<byte>, at: nat, data: seq<byte>)
    requires at + |data| <= dst.Length
    modifies dst
    ensures dst[..at + |data|] == old(dst[..at]) + data
  {
    for i := 0 to |data|
      invariant dst[..at + i] == old(dst[..at]) + data[..i]
    {
      dst[at + i] := data[i];
      assert data[..i + 1] == data[..i] + [data[i]];
    }
    assert data[..|data|] == data;
  }

  // ---------------------------------------------------------------- reading

  /** The bytes of the chunks from position pos of the k-th on. */
  ghost function Rest(chunks: seq<seq<byte>>, k: nat, pos: nat): seq<byte>
    requires k <= |chunks| && (k < |chunks| ==> pos <= |chunks[k]|)
  {
    if k == |chunks| then [] else chunks[k][pos..] + Flatten(chunks[k + 1..])
  }

  lemma RestAll(chunks: seq<seq<byte>>, k: nat)
    requires k <= |chunks|
    ensures Rest(chunks, k, 0) == Flatten(chunks[k..])
  {
    if k < |chunks| {
      assert chunks[k..][1..] == chunks[k + 1..];
    }
  }

  /** `json_length`. */
  method JsonLength(seg: JsonSegment, ghost list: Segments) returns (res: nat)
    requires list.Linked() && list.segs[0] == seg
    ensures res == |list.Bytes()|
  {
    res := 0;
    var p: JsonSegment? := seg;
    ghost var k := 0;
    assert list.chunks[0..] == list.chunks;
    while p != null
      invariant k <= |list.segs| && p == if k < |list.segs| then list.segs[k] else null
      invariant res + |Flatten(list.chunks[k..])| == |Flatten(list.chunks)|
      decreases |list.segs| - k
    {
      assert list.Holds(k) && list.chunks[k..][1..] == list.chunks[k + 1..];
      res := res + p.len;
      p := p.next;
      k := k + 1;
    }
  }

  /** `struct json_iterator`, with the list it walks and its place in it. */
  class JsonIterator {
    var seg: JsonSegment?
    var pos: nat
    ghost const list: Segments
    ghost var k: nat

    ghost predicate Valid()
      reads this, list.segs, list.Blocks()
    {
      && list.Linked()
      && k <= |list.segs|
      && seg == (if k < |list.segs| then list.segs[k] else null)
      && (k < |list.segs| ==> pos <= |list.chunks[k]|)
    }

    /** What is still to be read. */
    ghost function Remaining(): seq<byte>
      requires k <= |list.chunks| && (k < |list.chunks| ==> pos <= |list.chunks[k]|)
      reads this
    {
      Rest(list.chunks, k, pos)
    }

    constructor (seg: JsonSegment, ghost list: Segments)
      requires list.Linked() && list.segs[0] == seg
      ensures Valid() && this.list == list && Remaining() == list.Bytes()
    {
      this.seg := seg;
      this.pos := 0;
      this.list := list;
      this.k := 0;
      new;
      RestAll(list.chunks, 0);
      assert list.chunks[0..] == list.chunks;
    }

    /** The step over a segment that is used up. */
    method NextSegment()
      requires Valid() && seg != null && pos == seg.len
      modifies this`seg, this`pos, this`k
      ensures Valid() && k == old(k) + 1 && Remaining() == old(Remaining())
    {
      assert list.Holds(k);
      RestAll(list.chunks, k + 1);
      seg := seg.next;
      pos := 0;
      k := k + 1;
    }

    /** The copy of n bytes out of the current segment. */
    method Take(out: array<byte>, at: nat, n: nat)
      requires Valid() && seg != null && 0 < n <= seg.len - pos && at + n <= out.Length && out !in list.Blocks()
      modifies this`pos, out
      ensures Valid() && k == old(k) && |old(Remaining())| >= n && Remaining() == old(Remaining())[n..]
      ensures out[..at + n] == old(out[..at]) + old(Remaining())[..n]
    {
      assert list.Holds(k);
      assert seg.data[pos..pos + n] == seg.data[..seg.len][pos..][..n];
      Copy(out, at, seg.data[pos..pos + n]);
      pos := pos + n;
    }

    /** One round of the loop: the step to the next segment, or a copy of what the current one and room allow. */
    method ReadSome(out: array<byte>, at: nat, room: nat) returns (n: nat)
      requires Valid() && seg != null && 0 < room && at + room <= out.Length && out !in list.Blocks()
      modifies this`seg, this`pos, this`k, out
      ensures Valid() && n <= room && n <= |old(Remaining())|
      ensures k == if n > 0 then old(k) else old(k) + 1
      ensures Remaining() == old(Remaining())[n..]
      ensures out[..at + n] == old(out[..at]) + old(Remaining())[..n]
    {
      assert list.Holds(k);
      n := 0;
      var availInSeg := seg.len - pos;
      if availInSeg == 0 {
        NextSegment();
      } else {
        n := if availInSeg < room then availInSeg else room;
        Take(out, at, n);
      }
    }

    /** `json_it_read` into out[at..at + outLen]: as many of the remaining bytes as fit, and no others. */
    method Read(out: array<byte>, at: nat, outLen: nat) returns (written: nat)
      requires Valid() && at + outLen <= out.Length && out !in list.Blocks()
      modifies this`seg, this`pos, this`k, out
      ensures Valid()
      ensures written == Min(outLen, |old(Remaining())|)
      ensures out[..at + written] == old(out[..at]) + old(Remaining())[..written]
      ensures Remaining() == old(Remaining())[written..]
    {
      hide Segments.Holds, Rest;
      written := 0;
      ghost var todo := Remaining();
      while seg != null && written < outLen
        invariant Valid() && written <= outLen && written <= |todo|
        invariant out[..at + written] == old(out[..at]) + todo[..written]
        invariant Remaining() == todo[written..]
        decreases |list.segs| - k, outLen - written
      {
        var n := ReadSome(out, at + written, outLen - written);
        TakeTwice(todo, written, n);
        written := written + n;
      }
      if seg == null {
        NothingRemains();
      }
    }

    lemma NothingRemains()
      requires Valid() && seg == null
      ensures Remaining() == []
    {
    }
  }

  lemma TakeTwice<T>(s: seq<T>, a: nat, b: nat)
    requires a + b <= |s|
    ensures s[..a] + s[a..][..b] == s[..a + b] && s[a..][b..] == s[a + b..]
  {
  }
}
