/** `src/reader.rs`: positional reads from a source that may return fewer bytes than asked. */
module Reader {
  import opened Bytes

  /**
   * A byte source. `burst` is how many bytes it is willing to return for a request at an offset; it returns at
   * least one when any are left, and a slice returns all it can.
   */
  datatype Source = Source(data: seq<u8>, burst: (nat, nat) -> nat) {
    /** How many bytes a read of `want` bytes at `off` returns. */
    function Count(off: nat, want: nat): (n: nat)
      ensures off <= |data| ==> n <= want && off + n <= |data|
      ensures n == 0 <==> want == 0 || off >= |data|
    {
      if want == 0 || off >= |data| then 0 else Min(Min(|data| - off, want), Max(1, burst(off, want)))
    }
  }

  /** `SliceReader`. */
  function SliceSource(data: seq<u8>): Source { Source(data, (off, want) => want) }

  /** The view of a source that starts at `base`: `OffsetReader`. */
  function Shifted(src: Source, base: nat): Source {
    Source(if base <= |src.data| then src.data[base..] else [], (off: nat, want: nat) => src.burst(base + off, want))
  }

  /** A shifted source reads what the source holds past the base, in the same bursts. */
  lemma ShiftedReads(src: Source, base: nat, off: nat, want: nat)
    ensures Shifted(src, base).Count(off, want) == src.Count(base + off, want)
  {
  }

  /** `read_at`: fills the buffer from position `filled` as far as the source goes. */
  method ReadAt(src: Source, off: nat, buf: array<u8>, filled: nat) returns (count: nat)
    requires filled <= buf.Length
    modifies buf
    ensures count == src.Count(off, buf.Length - filled) && filled + count <= buf.Length
    ensures count > 0 ==> off + count <= |src.data|
    ensures forall p :: 0 <= p < buf.Length ==>
              buf[p] == if filled <= p < filled + count then src.data[off + p - filled] else old(buf[p])
  {
    count := src.Count(off, buf.Length - filled);
    for i := 0 to count
      invariant forall p :: 0 <= p < buf.Length ==>
                  buf[p] == if filled <= p < filled + i then src.data[off + p - filled] else old(buf[p])
    {
      buf[filled + i] := src.data[off + i];
    }
  }

  /** `read_exact_at`: succeeds exactly when the range exists, however short the individual reads are. */
  method ReadExactAt(src: Source, off: nat, buf: array<u8>) returns (ok: bool)
    modifies buf
    ensures ok <==> buf.Length == 0 || off + buf.Length <= |src.data|
    ensures ok && buf.Length > 0 ==> buf[..] == src.data[off..off + buf.Length]
  {
    var total := 0;
    while total < buf.Length
      invariant total <= buf.Length && (total > 0 ==> off + total <= |src.data|)
      invariant forall p :: 0 <= p < total ==> buf[p] == src.data[off + p]
      decreases buf.Length - total
    {
      var count := ReadAt(src, off + total, buf, total);
      if count == 0 {
        return false;
      }
      total := total + count;
    }
    return true;
  }

  /** What the source holds from `off`, then zeros. */
  function Lenient(data: seq<u8>, off: nat, len: nat): (r: seq<u8>)
    ensures |r| == len
    ensures forall p :: 0 <= p < len ==> r[p] == if off + p < |data| then data[off + p] else 0
  {
    var n := Min(SatSub(|data|, off), len);
    (if n > 0 then data[off..off + n] else []) + Zeros(len - n)
  }

  /** `read_lenient`: fills what the source supplies and leaves the rest of the zeroed buffer alone. */
  method ReadLenient(src: Source, off: nat, buf: array<u8>)
    requires buf[..] == Zeros(buf.Length)
    modifies buf
    ensures buf[..] == Lenient(src.data, off, buf.Length)
  {
    assert forall p :: 0 <= p < buf.Length ==> buf[p] == buf[..][p] == 0;
    var filled := 0;
    while filled < buf.Length
      invariant filled <= buf.Length && (filled > 0 ==> off + filled <= |src.data|)
      invariant forall p :: 0 <= p < buf.Length ==> buf[p] == if p < filled then src.data[off + p] else 0
      decreases buf.Length - filled
    {
      var count := ReadAt(src, off + filled, buf, filled);
      if count == 0 {
        break;
      }
      filled := filled + count;
    }
    assert buf[..] == Lenient(src.data, off, buf.Length);
  }

  /** A zeroed allocation filled leniently, as both mapped readers use it. */
  method LenientBytes(src: Source, off: nat, len: nat) returns (bytes: seq<u8>)
    ensures bytes == Lenient(src.data, off, len)
  {
    var buffer := new u8[len](_ => 0);
    assert buffer[..] == Zeros(len);
    ReadLenient(src, off, buffer);
    return buffer[..];
  }
}
