/** The encoders' output buffer: ids past the capacity are counted but not stored. */
module Sinks {
  import opened Basics

  class Sink {
    const out: array<int>
    var cnt: nat
    ghost var ids: seq<int>

    ghost predicate Valid()
      reads this, out
    {
      && cnt == |ids|
      && forall i :: 0 <= i < out.Length && i < |ids| ==> out[i] == ids[i]
    }

    constructor (out: array<int>)
      ensures Valid() && ids == [] && this.out == out
    {
      this.out := out;
      cnt, ids := 0, [];
    }

    /** g4_emit and emit: store when there is room, always count. */
    method Emit(id: int)
      requires Valid()
      modifies this, out
      ensures Valid() && ids == old(ids) + [id]
    {
      if cnt < out.Length {
        out[cnt] := id;
      }
      cnt := cnt + 1;
      ids := ids + [id];
    }
  }

  lemma SinkHolds(sink: Sink)
    requires sink.Valid()
    ensures sink.cnt == |sink.ids|
    ensures forall i :: 0 <= i < |sink.ids| && i < sink.out.Length ==> sink.out[i] == sink.ids[i]
  {
  }

  /** The decoders' text buffer: one slot is kept for the terminating zero; all bytes are counted. */
  class TextSink {
    const buf: array<byte>
    var pos: nat
    ghost var text: Bytes

    ghost predicate Valid()
      reads this, buf
    {
      && pos == |text|
      && forall i :: 0 <= i < |text| && i + 1 < buf.Length ==> buf[i] == text[i]
    }

    constructor (buf: array<byte>)
      ensures Valid() && text == [] && this.buf == buf
    {
      this.buf := buf;
      pos, text := 0, [];
    }

    /** put and g4_put. */
    method Put(b: byte)
      requires Valid()
      modifies this, buf
      ensures Valid() && text == old(text) + [b]
    {
      if pos + 1 < buf.Length {
        buf[pos] := b;
      }
      pos := pos + 1;
      text := text + [b];
    }

    method PutAll(w: Bytes)
      requires Valid()
      modifies this, buf
      ensures Valid() && text == old(text) + w
    {
      hide Valid;
      for j := 0 to |w|
        invariant Valid() && text == old(text) + w[..j]
      {
        Put(w[j]);
        assert w[..j + 1] == w[..j] + [w[j]];
      }
      assert w[..|w|] == w;
    }

    /** Terminates the buffer and returns the full length. */
    method Finish() returns (n: nat)
      requires Valid()
      modifies buf
      ensures n == |text|
      ensures n < buf.Length ==> buf[..n] == text && buf[n] == 0
      ensures 0 < buf.Length <= n ==> buf[..buf.Length - 1] == text[..buf.Length - 1] && buf[buf.Length - 1] == 0
    {
      if buf.Length > 0 {
        buf[if pos < buf.Length then pos else buf.Length - 1] := 0;
      }
      return pos;
    }
  }
}
