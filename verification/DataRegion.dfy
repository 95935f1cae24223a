/** The tensor data region of a model file: streamed while transcoding, or laid out at the end from memory. */
module DataRegion {
  import opened Basics

  const ALIGN: nat := 64

  function AlignUp(x: nat): (a: nat)
    ensures x <= a < x + 64 && a % 64 == 0
  {
    (x + ALIGN - 1) / ALIGN * ALIGN
  }

  function Zeros(n: nat): (z: Bytes)
    ensures |z| == n && forall i :: 0 <= i < n ==> z[i] == 0
  {
    seq(n, i => 0)
  }

  lemma ZerosAdd(a: nat, b: nat)
    ensures Zeros(a) + Zeros(b) == Zeros(a + b)
  {
  }

  /** The region for a list of tensors: each starts at the next multiple of 64, zeros in between. */
  function Region(ts: seq<Bytes>): Bytes {
    if ts == [] then [] else
      var r := Region(ts[..|ts| - 1]);
      r + Zeros(AlignUp(|r|) - |r|) + ts[|ts| - 1]
  }

  /** Where tensor i starts. */
  function OffsetOf(ts: seq<Bytes>, i: nat): nat
    requires i < |ts|
  {
    AlignUp(|Region(ts[..i])|)
  }

  lemma RegionMore(ts: seq<Bytes>, k: nat)
    requires k < |ts|
    ensures var r := Region(ts[..k]);
            && Region(ts[..k + 1]) == r + Zeros(AlignUp(|r|) - |r|) + ts[k]
            && OffsetOf(ts, k) == AlignUp(|r|)
  {
    assert ts[..k + 1][..k] == ts[..k];
  }

  lemma {:induction false} RegionGrows(ts: seq<Bytes>, i: nat, j: nat)
    requires i <= j <= |ts|
    ensures Region(ts[..i]) <= Region(ts[..j])
    decreases j
  {
    if i < j {
      RegionGrows(ts, i, j - 1);
      RegionMore(ts, j - 1);
    }
  }

  /** Every tensor is found at its offset, aligned, before the next one; the last one ends the region. */
  lemma PlacedAt(ts: seq<Bytes>, i: nat)
    requires i < |ts|
    ensures var off := OffsetOf(ts, i); var end := off + |ts[i]|;
            && off % 64 == 0
            && end <= |Region(ts)| && Region(ts)[off..end] == ts[i]
            && (i + 1 < |ts| ==> end <= OffsetOf(ts, i + 1))
            && (i + 1 == |ts| ==> end == |Region(ts)|)
  {
    hide *;
    RegionMore(ts, i);
    RegionGrows(ts, i + 1, |ts|);
    assert ts[..|ts|] == ts;
    OffsetIs(ts, i);
    if i + 1 < |ts| { OffsetIs(ts, i + 1); }
    var r, p, all := Region(ts[..i]), Region(ts[..i + 1]), Region(ts);
    var off := OffsetOf(ts, i);
    Tail(r + Zeros(off - |r|), ts[i]);
    Within(p, all, off);
  }

  lemma OffsetIs(ts: seq<Bytes>, i: nat)
    requires i < |ts|
    ensures OffsetOf(ts, i) == AlignUp(|Region(ts[..i])|)
  {
  }

  lemma Tail(a: Bytes, b: Bytes)
    ensures |a + b| == |a| + |b| && (a + b)[|a|..] == b
  {
  }

  lemma Within(p: Bytes, all: Bytes, off: nat)
    requires p <= all && off <= |p|
    ensures all[off..|p|] == p[off..]
  {
  }

  /** Tensors do not overlap: an earlier one ends where or before a later one starts. */
  lemma {:induction false} Disjoint(ts: seq<Bytes>, i: nat, j: nat)
    requires i < j < |ts|
    ensures OffsetOf(ts, i) + |ts[i]| <= OffsetOf(ts, j)
    decreases j
  {
    hide Region, OffsetOf;
    PlacedAt(ts, i);
    if i + 1 < j {
      Disjoint(ts, i, j - 1);
      PlacedAt(ts, j - 1);
    }
  }

  /** Bytes outside every tensor are zero. */
  lemma {:induction false} GapsAreZero(ts: seq<Bytes>, k: nat, p: nat)
    requires k <= |ts| && p < |Region(ts[..k])|
    requires forall i :: 0 <= i < k ==> !(OffsetOf(ts, i) <= p < OffsetOf(ts, i) + |ts[i]|)
    ensures Region(ts[..k])[p] == 0
    decreases k
  {
    if k > 0 {
      RegionMore(ts, k - 1);
      hide Region, AlignUp, OffsetOf;
      var r := Region(ts[..k - 1]);
      if p < |r| {
        GapsAreZero(ts, k - 1, p);
      }
    }
  }

  /** The streaming state: the temporary file and the running cursor. */
  class Stream {
    var off: nat
    var file: Bytes

    ghost predicate Valid()
      reads this
    {
      off == |file|
    }

    constructor ()
      ensures Valid() && file == []
    {
      off, file := 0, [];
    }

    /** emit_stream_one: pad in chunks of at most 64, then write the tensor. */
    method EmitOne(bytes: Bytes) returns (dataOff: nat)
      requires Valid()
      modifies this
      ensures Valid() && dataOff == AlignUp(old(off))
      ensures file == old(file) + Zeros(AlignUp(old(off)) - old(off)) + bytes
    {
      hide AlignUp, Zeros;
      var aligned := AlignUp(off);
      ghost var start, was := off, file;
      ZerosNone();
      while off < aligned
        invariant start <= off <= aligned && Valid()
        invariant file == was + Zeros(off - start)
      {
        var w := Min(aligned - off, 64);
        ZerosAdd(off - start, w);
        file := file + Zeros(w);
        off := off + w;
      }
      dataOff := off;
      file := file + bytes;
      off := off + |bytes|;
    }
  }

  lemma ZerosNone()
    ensures Zeros(0) == []
  {
  }

  function Offsets(ts: seq<Bytes>): (o: seq<nat>)
    ensures |o| == |ts| && forall i :: 0 <= i < |ts| ==> o[i] == OffsetOf(ts, i)
  {
    seq(|ts|, i requires 0 <= i < |ts| => OffsetOf(ts, i))
  }

  /** Streaming mode over the whole emit list, and the copy of the temporary file into the model file. */
  method Streamed(ts: seq<Bytes>) returns (offs: seq<nat>, region: Bytes)
    ensures offs == Offsets(ts) && region == Region(ts)
  {
    hide Region, AlignUp, OffsetOf, Zeros;
    var s := new Stream();
    offs := [];
    RegionNone(ts);
    for k := 0 to |ts|
      invariant s.Valid() && fresh(s) && s.file == Region(ts[..k])
      invariant |offs| == k && forall i :: 0 <= i < k ==> offs[i] == OffsetOf(ts, i)
    {
      RegionMore(ts, k);
      var off := s.EmitOne(ts[k]);
      offs := offs + [off];
    }
    assert ts[..|ts|] == ts;
    region := Copied(s.file, s.off);
    assert offs == Offsets(ts);
  }

  lemma RegionNone(ts: seq<Bytes>)
    ensures Region(ts[..0]) == []
  {
  }

  const COPY_CHUNK: nat := 4194304

  /** The copy loop; a read may return fewer bytes than asked for, but not none before the end. */
  method Copied(file: Bytes, size: nat) returns (out: Bytes)
    requires size == |file|
    ensures out == file
  {
    out := [];
    while |out| < size
      invariant |out| <= size && out == file[..|out|]
      decreases size - |out|
    {
      var copied := |out|;
      var want := Min(size - copied, COPY_CHUNK);
      var got: nat :| 0 < got <= want;
      out := out + file[copied..copied + got];
    }
  }

  /** In-memory mode: the offset loop. */
  method AssignOffsets(ts: seq<Bytes>) returns (offs: seq<nat>, size: nat)
    ensures offs == Offsets(ts) && size == |Region(ts)|
  {
    hide Region, AlignUp, OffsetOf, Zeros;
    var cursor := 0;
    offs := [];
    RegionNone(ts);
    for k := 0 to |ts|
      invariant cursor == |Region(ts[..k])|
      invariant |offs| == k && forall i :: 0 <= i < k ==> offs[i] == OffsetOf(ts, i)
    {
      RegionMore(ts, k);
      cursor := AlignUp(cursor);
      offs := offs + [cursor];
      cursor := cursor + |ts[k]|;
    }
    assert ts[..|ts|] == ts;
    size := cursor;
    assert offs == Offsets(ts);
  }

  /** In-memory mode: the writing loop, padding in chunks of at most 65536. */
  method WriteRegion(ts: seq<Bytes>) returns (out: Bytes)
    ensures out == Region(ts)
  {
    hide Region, AlignUp, OffsetOf, Zeros;
    out := [];
    var pos := 0;
    RegionNone(ts);
    for k := 0 to |ts|
      invariant pos == |out| && out == Region(ts[..k])
    {
      RegionMore(ts, k);
      var aligned := AlignUp(pos);
      ghost var start, was := pos, out;
      ZerosNone();
      while pos < aligned
        invariant start <= pos <= aligned && pos == |out|
        invariant out == was + Zeros(pos - start)
      {
        var w := Min(aligned - pos, 65536);
        ZerosAdd(pos - start, w);
        out := out + Zeros(w);
        pos := pos + w;
      }
      out := out + ts[k];
      pos := pos + |ts[k]|;
    }
    assert ts[..|ts|] == ts;
  }
}
