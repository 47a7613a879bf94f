/**
 * FileSeeker: a cursor over a fixed-size byte buffer (script/gbnp.js:490-538).
 * The buffer never grows; an access outside it is the RangeError that DataView throws,
 * reported here as `ok == false` (writes) or `None` (reads). A multi-byte write that
 * runs off the end has already stored the bytes that fit, as the JS loop has.
 */
module Seeking {
  import opened Bytes

  class FileSeeker {
    const view: array<byte>
    var position: nat

    constructor (buffer: array<byte>)
      ensures view == buffer && position == 0
    {
      view := buffer;
      position := 0;
    }

    method Seek(address: nat)
      modifies this
      ensures position == address
    {
      position := address;
    }

    method Rewind()
      modifies this
      ensures position == 0
    {
      position := 0;
    }

    function Size(): (n: nat)
      ensures n == view.Length
    {
      view.Length
    }

    /** getUint8 at the cursor, then advance; nothing moves when the cursor is past the end. */
    method ReadByte() returns (r: Option<byte>)
      modifies this
      ensures old(position) < view.Length ==> r == Some(view[old(position)]) && position == old(position) + 1
      ensures view.Length <= old(position) ==> r == None && position == old(position)
    {
      if position < view.Length {
        r := Some(view[position]);
        position := position + 1;
      } else {
        r := None;
      }
    }

    /** `n` consecutive bytes from the cursor; fails when they do not all lie inside the buffer. */
    method Read(n: nat) returns (r: Option<seq<byte>>)
      modifies this
      ensures r == Bytes.Read(view[..], old(position), n)
      ensures n == 0 ==> r == Some([]) && position == old(position)
      ensures 0 < n && old(position) + n <= view.Length ==>
        r == Some(view[old(position)..old(position) + n]) && position == old(position) + n
      ensures 0 < n && view.Length < old(position) + n ==>
        r == None && position == (if old(position) < view.Length then view.Length else old(position))
    {
      var data: seq<byte> := [];
      var i := 0;
      while i < n
        invariant 0 <= i <= n
        invariant position == old(position) + i && (i > 0 ==> position <= view.Length)
        invariant i > 0 ==> data == view[old(position)..position]
        invariant i == 0 ==> data == []
      {
        var b := ReadByte();
        if b.None? {
          return None;
        }
        data := data + [b.value];
        i := i + 1;
      }
      r := Some(data);
    }

    /** setUint8 at the cursor, then advance. */
    method WriteByte(b: byte) returns (ok: bool)
      modifies this, view
      ensures ok == (old(position) < view.Length)
      ensures view[..] == Overwrite(old(view[..]), old(position), [b])
      ensures position == if ok then old(position) + 1 else old(position)
    {
      ok := position < view.Length;
      if ok {
        view[position] := b;
        position := position + 1;
      }
    }

    /** writeByte for each byte in turn; stops at the first one that falls outside. */
    method WriteBytes(bytes: seq<byte>) returns (ok: bool)
      modifies this, view
      ensures ok == (|bytes| == 0 || old(position) + |bytes| <= view.Length)
      ensures view[..] == Overwrite(old(view[..]), old(position), bytes)
      ensures position == if ok then old(position) + |bytes|
                          else if old(position) < view.Length then view.Length else old(position)
    {
      var i := 0;
      while i < |bytes|
        invariant 0 <= i <= |bytes|
        invariant position == old(position) + i && (i > 0 ==> position <= view.Length)
        invariant view[..] == Overwrite(old(view[..]), old(position), bytes[..i])
      {
        OverwriteSnoc(old(view[..]), old(position), bytes[..i], bytes[i]);
        assert bytes[..i] + [bytes[i]] == bytes[..i + 1];
        ok := WriteByte(bytes[i]);
        if !ok {
          OverwriteClipped(old(view[..]), old(position), bytes, i);
          return;
        }
        i := i + 1;
      }
      assert bytes[..i] == bytes;
      ok := true;
    }

    /** Writes `b` while the cursor is below `stop`. */
    method WriteByteUntil(b: byte, stop: nat) returns (ok: bool)
      modifies this, view
      ensures ok == (old(position) >= stop || stop <= view.Length)
      ensures view[..] == Overwrite(old(view[..]), old(position),
                                    Repeat(b, if old(position) < stop then stop - old(position) else 0))
      ensures position == if old(position) >= stop then old(position)
                          else if ok then stop
                          else if old(position) < view.Length then view.Length else old(position)
    {
      ghost var start := position;
      ghost var fill := Repeat(b, if start < stop then stop - start else 0);
      while position < stop
        invariant start <= position && (position > start ==> position <= stop && position <= view.Length)
        invariant view[..] == Overwrite(old(view[..]), start, fill[..position - start])
        decreases stop - position
      {
        OverwriteSnoc(old(view[..]), start, fill[..position - start], b);
        assert fill[..position - start] + [b] == fill[..position - start + 1];
        ok := WriteByte(b);
        if !ok {
          OverwriteClipped(old(view[..]), start, fill, position - start);
          return;
        }
      }
      assert fill[..position - start] == fill;
      ok := true;
    }
  }
}
