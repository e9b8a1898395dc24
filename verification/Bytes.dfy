/** Bytes, 16-bit words and disk blocks.

    A block is always a run of bytes.  The allocator's group blocks and the inode layer's index
    blocks are read through a pointer cast to 16-bit words; `WordAt` and `PutWord` are that cast on a
    little-endian machine, so the same block can be file data at one moment and metadata the next. */
module Bytes {
  const BLOCK_SIZE := 512
  const WORDS_PER_BLOCK := 256

  type byte = x: int | 0 <= x < 256
  type uint16 = x: int | 0 <= x < 0x1_0000
  type uint32 = x: int | 0 <= x < 0x1_0000_0000

  type Block = b: seq<byte> | |b| == BLOCK_SIZE witness seq(BLOCK_SIZE, _ => 0)

  const ZERO_BLOCK: Block := Zeros(BLOCK_SIZE)

  function Zeros(n: nat): (z: seq<byte>)
    ensures |z| == n && forall i :: 0 <= i < n ==> z[i] == 0
  {
    seq<byte>(n, _ => 0)
  }

  /** The 16-bit number in two bytes, low byte first. */
  function Two(s: seq<byte>, at: nat): uint16
    requires at + 2 <= |s|
  {
    s[at] as int + 256 * (s[at + 1] as int)
  }

  /** The 32-bit number in four bytes, low byte first. */
  function Four(s: seq<byte>, at: nat): uint32
    requires at + 4 <= |s|
  {
    s[at] as int + 0x100 * (s[at + 1] as int) + 0x1_0000 * (s[at + 2] as int) + 0x100_0000 * (s[at + 3] as int)
  }

  function WordAt(b: Block, i: nat): uint16
    requires i < WORDS_PER_BLOCK
  {
    b[2 * i] as int + 256 * (b[2 * i + 1] as int)
  }

  function PutWord(b: Block, i: nat, v: uint16): (r: Block)
    requires i < WORDS_PER_BLOCK
    ensures forall j {:trigger WordAt(r, j)} :: 0 <= j < WORDS_PER_BLOCK ==>
              WordAt(r, j) == if j == i then v else WordAt(b, j)
  {
    b[2 * i := v % 256][2 * i + 1 := v / 256]
  }

  lemma ZeroWords()
    ensures forall j {:trigger WordAt(ZERO_BLOCK, j)} :: 0 <= j < WORDS_PER_BLOCK ==> WordAt(ZERO_BLOCK, j) == 0
  {
  }

  /** The `n` words of a block that start at word `from`. */
  function Words(b: Block, from: nat, n: nat): (ws: seq<uint16>)
    requires from + n <= WORDS_PER_BLOCK
    ensures |ws| == n && forall i :: 0 <= i < n ==> ws[i] == WordAt(b, from + i)
  {
    seq<uint16>(n, i requires 0 <= i < n => WordAt(b, from + i))
  }

  /** The blocks that n bytes from the start of a file lie in. */
  function BlocksFor(n: nat): nat {
    (n + BLOCK_SIZE - 1) / BLOCK_SIZE
  }

  function Min(x: nat, y: nat): nat { if x < y then x else y }

  /** A block with `chunk` copied in at `at`. */
  function Patch(blk: Block, at: nat, chunk: seq<byte>): Block
    requires at + |chunk| <= BLOCK_SIZE
  {
    blk[..at] + chunk + blk[at + |chunk|..]
  }

  lemma InChunk(cur: nat, n: nat, i: nat)
    requires cur % BLOCK_SIZE + n <= BLOCK_SIZE
    ensures cur <= i < cur + n <==>
              i / BLOCK_SIZE == cur / BLOCK_SIZE && cur % BLOCK_SIZE <= i % BLOCK_SIZE < cur % BLOCK_SIZE + n
    ensures i / BLOCK_SIZE == cur / BLOCK_SIZE ==> i - cur == i % BLOCK_SIZE - cur % BLOCK_SIZE
  {
  }

  function Reverse<T>(s: seq<T>): (r: seq<T>)
    ensures |r| == |s|
  {
    if s == [] then [] else Reverse(s[1..]) + [s[0]]
  }

  lemma ReverseEmpty<T>(s: seq<T>)
    requires s == []
    ensures Reverse(s) == []
  {
  }

  lemma {:induction false} ReverseSnoc<T>(s: seq<T>, x: T)
    ensures Reverse(s + [x]) == [x] + Reverse(s)
  {
    if s == [] {
      assert Reverse([x]) == Reverse([]) + [x];
    } else {
      assert (s + [x])[1..] == s[1..] + [x];
      ReverseSnoc(s[1..], x);
    }
  }

  ghost predicate Distinct<T>(s: seq<T>) {
    forall i, j :: 0 <= i < j < |s| ==> s[i] != s[j]
  }

  ghost function Elements<T>(s: seq<T>): set<T> {
    set x | x in s
  }
}
