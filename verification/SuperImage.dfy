/** The on-disk form of the super block: the C struct copied byte for byte into block 1, which on this
    layout is a run of 16-bit words with the modified flag in the low byte of the last one. */
module SuperImages {
  import opened Bytes
  import opened FreeLists

  const NICINOD := 50

  datatype SuperImage = SuperImage(
    isize: uint16, fsize: uint16,
    nfree: uint16, free: seq<uint16>,
    ninode: uint16, inodes: seq<uint16>,
    rinode: uint16, freeTotal: uint16, inodeTotal: uint16, rootIno: uint16, fmod: byte)
  {
    predicate Wf() {
      |free| == NICFREE && |inodes| == NICINOD
    }
  }

  const SUPER_WORDS := 3 + NICFREE + 1 + NICINOD + 5

  function FieldWords(s: SuperImage): (ws: seq<uint16>)
    requires s.Wf()
    ensures |ws| == SUPER_WORDS
  {
    [s.isize, s.fsize, s.nfree] + s.free + [s.ninode] + s.inodes
    + [s.rinode, s.freeTotal, s.inodeTotal, s.rootIno, s.fmod]
  }

  /** A zeroed block with `ws` copied to its front. */
  function PackWords(ws: seq<uint16>, n: nat): (b: Block)
    requires n <= |ws| <= WORDS_PER_BLOCK
    ensures forall i {:trigger WordAt(b, i)} :: 0 <= i < WORDS_PER_BLOCK ==> WordAt(b, i) == if i < n then ws[i] else 0
  {
    if n == 0 then ZeroWords(); ZERO_BLOCK else PutWord(PackWords(ws, n - 1), n - 1, ws[n - 1])
  }

  function Encode(s: SuperImage): Block
    requires s.Wf()
  {
    PackWords(FieldWords(s), |FieldWords(s)|)
  }

  function Decode(b: Block): (s: SuperImage)
    ensures s.Wf()
  {
    SuperImage(
      WordAt(b, 0), WordAt(b, 1), WordAt(b, 2), Words(b, 3, NICFREE),
      WordAt(b, 53), Words(b, 54, NICINOD),
      WordAt(b, 104), WordAt(b, 105), WordAt(b, 106), WordAt(b, 107), WordAt(b, 108) % 256)
  }

  /** The fields of the super block, where its C struct puts them, low byte first. */
  lemma SuperLayout(b: Block)
    ensures var s := Decode(b);
            && s.isize == Two(b, 0) && s.fsize == Two(b, 2) && s.nfree == Two(b, 4)
            && (forall i :: 0 <= i < 50 ==> s.free[i] == Two(b, 6 + 2 * i))
            && s.ninode == Two(b, 106) && (forall i :: 0 <= i < 50 ==> s.inodes[i] == Two(b, 108 + 2 * i))
            && s.rinode == Two(b, 208) && s.freeTotal == Two(b, 210) && s.inodeTotal == Two(b, 212)
            && s.rootIno == Two(b, 214) && s.fmod == b[216]
  {
  }

  /** What is flushed is what the next mount loads. */
  lemma DecodeEncode(s: SuperImage)
    requires s.Wf()
    ensures Decode(Encode(s)) == s
  {
    var ws := FieldWords(s);
    assert ws[3..53] == s.free && ws[54..104] == s.inodes;
    assert Words(Encode(s), 3, NICFREE) == s.free;
    assert Words(Encode(s), 54, NICINOD) == s.inodes;
  }

  /** What ifree does to the stack of free inode numbers: a full stack stays as it is. */
  function Returned(stack: seq<uint16>, ino: uint16): seq<uint16> {
    if |stack| < NICINOD then stack + [ino] else stack
  }
}
