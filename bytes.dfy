/** Bytes, byte buffers and the failure-compatible Option used across the model. */
module Bytes {

  /** One byte of a DataView / Uint8Array. */
  type byte = bv8

  datatype Option<+T> = None | Some(value: T) {
    predicate IsFailure() { None? }

    function PropagateFailure<U>(): Option<U>
      requires None?
    {
      None
    }

    function Extract(): T
      requires Some?
    {
      value
    }
  }

  /** The byte that DataView.setUint8 stores for the number x (ToUint8: x modulo 256). */
  function AsByte(x: int): byte {
    (x % 256) as byte
  }

  /** A number that fits a byte is stored unchanged. */
  lemma SmallByte(q: int)
    requires 0 <= q < 256
    ensures AsByte(q) as int == q
    ensures q < 128 ==> AsByte(q) < 0x80
  {
  }

  /** A buffer of `count` zero bytes, as a freshly allocated ArrayBuffer holds. */
  function Zeros(count: nat): (r: seq<byte>)
    ensures |r| == count
    ensures forall k :: 0 <= k < count ==> r[k] == 0
  {
    seq(count, _ => 0)
  }

  /** raw copied into a zeroed buffer of `size` bytes. */
  function ZeroPadded(raw: seq<byte>, size: nat): (p: seq<byte>)
    requires |raw| <= size
    ensures |p| == size
    ensures forall k :: 0 <= k < |raw| ==> p[k] == raw[k]
    ensures forall k :: |raw| <= k < size ==> p[k] == 0
  {
    if |raw| == size then raw else raw + Zeros(size - |raw|)
  }

  /** The copied bytes come first. */
  lemma ZeroPaddedPrefix(raw: seq<byte>, size: nat)
    requires |raw| <= size
    ensures ZeroPadded(raw, size)[..|raw|] == raw
  {
  }

  /** `count` copies of the byte b. */
  function Repeat(b: byte, count: nat): (r: seq<byte>)
    ensures |r| == count
    ensures forall k :: 0 <= k < count ==> r[k] == b
  {
    seq(count, _ => b)
  }

  /**
   * The buffer after `bytes` is written starting at `pos`, one byte after the other,
   * keeping only the bytes that land inside the buffer: a buffer never grows.
   */
  function Overwrite(buf: seq<byte>, pos: nat, bytes: seq<byte>): (r: seq<byte>)
    ensures |r| == |buf|
    ensures forall k :: 0 <= k < |buf| ==>
      r[k] == if pos <= k < pos + |bytes| then bytes[k - pos] else buf[k]
  {
    seq(|buf|, k requires 0 <= k < |buf| => if pos <= k < pos + |bytes| then bytes[k - pos] else buf[k])
  }

  /**
   * writeBytes as a value: it throws (RangeError) unless every byte lands inside the
   * buffer; writing nothing never throws.
   */
  function Write(buf: seq<byte>, pos: nat, bytes: seq<byte>): (r: Option<seq<byte>>)
    ensures r.Some? <==> |bytes| == 0 || pos + |bytes| <= |buf|
    ensures r.Some? ==> r.value == Overwrite(buf, pos, bytes)
  {
    if |bytes| == 0 || pos + |bytes| <= |buf| then Some(Overwrite(buf, pos, bytes)) else None
  }

  /** What a successful write leaves: the written bytes at [pos, pos + |bytes|), the rest unchanged. */
  lemma WriteAt(buf: seq<byte>, pos: nat, bytes: seq<byte>, out: seq<byte>)
    requires Write(buf, pos, bytes) == Some(out)
    ensures |out| == |buf|
    ensures forall k :: pos <= k < pos + |bytes| ==> k < |out| && out[k] == bytes[k - pos]
    ensures forall k :: 0 <= k < |buf| && !(pos <= k < pos + |bytes|) ==> out[k] == buf[k]
  {
  }

  /** bytes lie in buf from pos on. */
  predicate Placed(buf: seq<byte>, pos: nat, bytes: seq<byte>) {
    |bytes| == 0 || (pos + |bytes| <= |buf| && buf[pos..pos + |bytes|] == bytes)
  }

  /** A successful write places its bytes. */
  lemma PlacedByWrite(buf: seq<byte>, pos: nat, bytes: seq<byte>, out: seq<byte>)
    requires Write(buf, pos, bytes) == Some(out)
    ensures Placed(out, pos, bytes)
  {
    if |bytes| > 0 {
      WriteAt(buf, pos, bytes, out);
      assert out[pos..pos + |bytes|] == bytes;
    }
  }

  /** A write beside placed bytes leaves them in place. */
  lemma PlacedKept(buf: seq<byte>, pos: nat, bytes: seq<byte>, out: seq<byte>, lo: nat, kept: seq<byte>)
    requires Write(buf, pos, bytes) == Some(out) && Placed(buf, lo, kept)
    requires lo + |kept| <= pos || pos + |bytes| <= lo
    ensures Placed(out, lo, kept)
  {
    if |kept| > 0 {
      WriteAt(buf, pos, bytes, out);
      assert out[lo..lo + |kept|] == buf[lo..lo + |kept|];
    }
  }

  /** Placed bytes below lim stay placed in a buffer that agrees below lim. */
  lemma PlacedAgree(buf: seq<byte>, other: seq<byte>, pos: nat, bytes: seq<byte>, lim: nat)
    requires Placed(buf, pos, bytes) && pos + |bytes| <= lim <= |other| && lim <= |buf|
    requires forall k :: 0 <= k < lim ==> other[k] == buf[k]
    ensures Placed(other, pos, bytes)
  {
    if |bytes| > 0 {
      assert other[pos..pos + |bytes|] == buf[pos..pos + |bytes|];
    }
  }

  /** One byte of placed bytes. */
  lemma PlacedByte(buf: seq<byte>, pos: nat, bytes: seq<byte>, m: nat)
    requires Placed(buf, pos, bytes) && m < |bytes|
    ensures pos + m < |buf| && buf[pos + m] == bytes[m]
  {
    assert buf[pos..pos + |bytes|][m] == buf[pos + m];
  }

  /** `read(n)` from `pos` as a value: it throws unless all n bytes lie inside the buffer. */
  function Read(buf: seq<byte>, pos: nat, n: nat): (r: Option<seq<byte>>)
    ensures r.Some? <==> n == 0 || pos + n <= |buf|
    ensures r.Some? ==> |r.value| == n
    ensures r.Some? ==> forall k :: 0 <= k < n ==> r.value[k] == buf[pos + k]
  {
    if n == 0 then Some([]) else if pos + n <= |buf| then Some(buf[pos..pos + n]) else None
  }

  /** Placed bytes read back whole. */
  lemma PlacedRead(buf: seq<byte>, pos: nat, bytes: seq<byte>, n: nat)
    requires Placed(buf, pos, bytes) && n == |bytes|
    ensures Read(buf, pos, n) == Some(bytes)
  {
  }

  /** Writing one more byte right after a write extends it. */
  lemma OverwriteSnoc(buf: seq<byte>, pos: nat, bytes: seq<byte>, b: byte)
    ensures Overwrite(Overwrite(buf, pos, bytes), pos + |bytes|, [b]) == Overwrite(buf, pos, bytes + [b])
  {
  }

  /** Two writes back to back are one write of both. */
  lemma OverwriteAppend(buf: seq<byte>, pos: nat, first: seq<byte>, second: seq<byte>)
    ensures Overwrite(Overwrite(buf, pos, first), pos + |first|, second) == Overwrite(buf, pos, first + second)
  {
  }

  /** Filling a buffer from its start with exactly its length of bytes leaves just those bytes. */
  lemma OverwriteWhole(buf: seq<byte>, bytes: seq<byte>)
    requires |bytes| == |buf|
    ensures Overwrite(buf, 0, bytes) == bytes
  {
  }

  /** Bytes that would land past the end of the buffer have no effect. */
  lemma OverwriteClipped(buf: seq<byte>, pos: nat, bytes: seq<byte>, n: nat)
    requires n <= |bytes| && pos + n >= |buf|
    ensures Overwrite(buf, pos, bytes[..n]) == Overwrite(buf, pos, bytes)
  {
  }
}
