/** What both engines mean by a file: a sequence of bytes, read by slices and written by overlay. */
module FileSpecs {
  import opened Bytes

  /** The file after `data` is written at `off`. */
  function Overlay(file: seq<byte>, off: nat, data: seq<byte>): (r: seq<byte>)
    requires off <= |file|
    ensures |r| == if off + |data| > |file| then off + |data| else |file|
  {
    file[..off] + data + if off + |data| < |file| then file[off + |data|..] else []
  }

  /** A file padded with zeros up to an offset past its end. */
  function ZeroExtended(file: seq<byte>, off: nat): (r: seq<byte>)
    ensures |r| == (if off > |file| then off else |file|) && r[..|file|] == file
    ensures forall i :: |file| <= i < |r| ==> r[i] == 0
  {
    if off > |file| then file + Zeros(off - |file|) else file
  }

  lemma OverlayByte(file: seq<byte>, off: nat, data: seq<byte>, i: nat)
    requires i < |Overlay(ZeroExtended(file, off), off, data)|
    ensures Overlay(ZeroExtended(file, off), off, data)[i] ==
            if off <= i < off + |data| then data[i - off] else if i < |file| then file[i] else 0
  {
    hide ZeroExtended;
    assert i < |file| ==> ZeroExtended(file, off)[..|file|][i] == file[i];
  }

  /** The slice a read of `len` bytes at `off` returns. */
  function Slice(file: seq<byte>, off: nat, len: nat): seq<byte> {
    if off >= |file| then [] else if off + len > |file| then file[off..] else file[off..off + len]
  }

  /** Reading back what was written returns it; reading elsewhere returns the old bytes. */
  lemma ReadAfterWrite(file: seq<byte>, off: nat, data: seq<byte>)
    requires off <= |file|
    ensures Slice(Overlay(file, off, data), off, |data|) == data
    ensures forall o, n :: 0 <= o && 0 <= n && o + n <= off ==>
              Slice(Overlay(file, off, data), o, n) == Slice(file, o, n)
    ensures forall o, n :: 0 <= n && off + |data| <= o && o + n <= |file| ==>
              Slice(Overlay(file, off, data), o, n) == Slice(file, o, n)
  {
  }

  /** Appending in pieces is appending at once. */
  lemma OverlayCompose(file: seq<byte>, off: nat, x: seq<byte>, y: seq<byte>)
    requires off <= |file|
    ensures off + |x| <= |Overlay(file, off, x)|
    ensures Overlay(Overlay(file, off, x), off + |x|, y) == Overlay(file, off, x + y)
  {
  }
}
