/** Directory entries: 16-byte records of a 14-byte name and an inode number, and the map they stand for. */
module DirEntries {
  import opened Bytes

  const NAME_SIZE := 14
  const ENTRY_SIZE := NAME_SIZE + 2
  const ENTRIES_PER_BLK := BLOCK_SIZE / ENTRY_SIZE

  type Name = n: seq<byte> | |n| == NAME_SIZE witness seq<byte>(NAME_SIZE, _ => 0)

  /** Inode number 0 marks a free slot. */
  datatype DirEntry = DirEntry(name: Name, ino: uint16)

  // ---------- names as C strings ----------

  /** The length of a C string that may also end without a NUL. */
  function StrLen(s: seq<byte>): (n: nat)
    ensures n <= |s| && (forall i :: 0 <= i < n ==> s[i] != 0) && (n < |s| ==> s[n] == 0)
  {
    if s == [] || s[0] == 0 then 0 else 1 + StrLen(s[1..])
  }

  function CharAt(s: seq<byte>, i: nat): byte {
    if i < |s| then s[i] else 0
  }

  /** What strncpy leaves in a name field: at most 14 characters, padded with NULs. */
  function Key(s: seq<byte>): Name {
    var n := StrLen(s);
    seq<byte>(NAME_SIZE, i requires 0 <= i => if i < n then s[i] else 0)
  }

  /** Two strings whose first differing or NUL character comes where this says are equal as names. */
  lemma SamePrefix(a: seq<byte>, b: seq<byte>, n: nat)
    requires forall i :: 0 <= i < n ==> CharAt(a, i) == CharAt(b, i) && CharAt(a, i) != 0
    requires n >= NAME_SIZE || (CharAt(a, n) == 0 && CharAt(b, n) == 0)
    ensures Key(a) == Key(b)
  {
    PrefixKey(a, n);
    PrefixKey(b, n);
    assert forall i :: 0 <= i < NAME_SIZE ==> Key(a)[i] == Key(b)[i];
  }

  lemma PrefixKey(a: seq<byte>, n: nat)
    requires forall i :: 0 <= i < n ==> CharAt(a, i) != 0
    requires n >= NAME_SIZE || CharAt(a, n) == 0
    ensures forall i :: 0 <= i < NAME_SIZE ==> Key(a)[i] == if i < n then CharAt(a, i) else 0
  {
    assert StrLen(a) < |a| ==> CharAt(a, StrLen(a)) == 0;
    assert CharAt(a, |a|) == 0;
  }

  lemma DifferentAt(a: seq<byte>, b: seq<byte>, n: nat)
    requires n < NAME_SIZE && forall i :: 0 <= i < n ==> CharAt(a, i) == CharAt(b, i) && CharAt(a, i) != 0
    requires CharAt(a, n) != CharAt(b, n)
    ensures Key(a) != Key(b)
  {
    KeyAt(a, n);
    KeyAt(b, n);
  }

  lemma KeyAt(a: seq<byte>, n: nat)
    requires n < NAME_SIZE && forall i :: 0 <= i < n ==> CharAt(a, i) != 0
    ensures Key(a)[n] == CharAt(a, n)
  {
    assert StrLen(a) < |a| ==> CharAt(a, StrLen(a)) == 0;
    assert CharAt(a, |a|) == 0;
  }

  lemma KeyIdempotent(name: seq<byte>)
    ensures Key(Key(name)) == Key(name)
  {
    var n := StrLen(name);
    PrefixKey(Key(name), Min(n, NAME_SIZE));
    assert forall i :: 0 <= i < NAME_SIZE ==> Key(Key(name))[i] == Key(name)[i];
  }

  /** strncmp on a name field: the comparison stops at the first difference, at a NUL, or after 14
      characters, and says equal exactly when the names are. */
  method SameName(a: seq<byte>, b: seq<byte>) returns (same: bool)
    ensures same == (Key(a) == Key(b))
  {
    hide Key;
    for i := 0 to NAME_SIZE
      invariant forall j :: 0 <= j < i ==> CharAt(a, j) == CharAt(b, j) && CharAt(a, j) != 0
    {
      if CharAt(a, i) != CharAt(b, i) {
        DifferentAt(a, b, i);
        return false;
      }
      if CharAt(a, i) == 0 {
        SamePrefix(a, b, i);
        return true;
      }
    }
    SamePrefix(a, b, NAME_SIZE);
    return true;
  }

  // ---------- records ----------

  function EntryBytes(e: DirEntry): (bs: seq<byte>)
    ensures |bs| == ENTRY_SIZE
  {
    e.name + [e.ino % 256, e.ino / 256]
  }

  function Pack(es: seq<DirEntry>): (bs: seq<byte>)
    ensures |bs| == |es| * ENTRY_SIZE
  {
    seq<byte>(|es| * ENTRY_SIZE, i requires 0 <= i < |es| * ENTRY_SIZE =>
      EntryBytes(es[i / ENTRY_SIZE])[i % ENTRY_SIZE])
  }

  function EntryAt(bs: seq<byte>, k: nat): DirEntry
    requires (k + 1) * ENTRY_SIZE <= |bs|
  {
    var at := k * ENTRY_SIZE;
    DirEntry(bs[at..at + NAME_SIZE], bs[at + NAME_SIZE] as int + 256 * (bs[at + NAME_SIZE + 1] as int))
  }

  /** The entries of a directory file; a tail shorter than a record is ignored. */
  function Parse(bs: seq<byte>): (es: seq<DirEntry>)
    ensures |es| == |bs| / ENTRY_SIZE && forall k :: 0 <= k < |es| ==> es[k] == EntryAt(bs, k)
  {
    seq(|bs| / ENTRY_SIZE, k requires 0 <= k < |bs| / ENTRY_SIZE => EntryAt(bs, k))
  }

  /** An entry is 14 bytes of name and the inode number, low byte first. */
  lemma EntryLayout(bs: seq<byte>, k: nat)
    requires (k + 1) * 16 <= |bs|
    ensures k < |Parse(bs)| && Parse(bs)[k].name == bs[16 * k..16 * k + 14]
    ensures Parse(bs)[k].ino == Two(bs, 16 * k + 14)
  {
  }

  lemma PackedAt(es: seq<DirEntry>, k: nat, j: nat)
    requires k < |es| && j < ENTRY_SIZE
    ensures k * ENTRY_SIZE + j < |Pack(es)| && Pack(es)[k * ENTRY_SIZE + j] == EntryBytes(es[k])[j]
  {
    var i := k * ENTRY_SIZE + j;
    assert i / ENTRY_SIZE == k && i % ENTRY_SIZE == j;
  }

  /** Reading back a written directory gives the same entries. */
  lemma ParsePack(es: seq<DirEntry>)
    ensures Parse(Pack(es)) == es
  {
    forall k | 0 <= k < |es| ensures EntryAt(Pack(es), k) == es[k] {
      PackedEntry(es, k);
    }
    hide Pack, EntryAt;
  }

  lemma PackedEntry(es: seq<DirEntry>, k: nat)
    requires k < |es|
    ensures EntryAt(Pack(es), k) == es[k]
  {
    var record := Pack(es)[k * ENTRY_SIZE..(k + 1) * ENTRY_SIZE];
    forall j | 0 <= j < ENTRY_SIZE ensures record[j] == EntryBytes(es[k])[j] {
      PackedAt(es, k, j);
    }
    hide Pack, EntryBytes;
    SliceEntry(Pack(es), k, es[k]);
  }

  lemma SliceEntry(bs: seq<byte>, k: nat, e: DirEntry)
    requires (k + 1) * ENTRY_SIZE <= |bs| && bs[k * ENTRY_SIZE..(k + 1) * ENTRY_SIZE] == EntryBytes(e)
    ensures EntryAt(bs, k) == e
  {
    var at, r := k * ENTRY_SIZE, bs[k * ENTRY_SIZE..(k + 1) * ENTRY_SIZE];
    assert r[..NAME_SIZE] == e.name && bs[at..at + NAME_SIZE] == r[..NAME_SIZE];
    assert bs[at + NAME_SIZE] == r[NAME_SIZE] && bs[at + NAME_SIZE + 1] == r[NAME_SIZE + 1];
  }

  /** Entries depend only on the bytes of whole records. */
  lemma SameEntries(x: seq<byte>, y: seq<byte>, n: nat)
    requires n <= |x| / ENTRY_SIZE && n <= |y| / ENTRY_SIZE && x[..n * ENTRY_SIZE] == y[..n * ENTRY_SIZE]
    ensures Parse(x)[..n] == Parse(y)[..n]
  {
    forall k | 0 <= k < n ensures EntryAt(x, k) == EntryAt(y, k) {
      SameEntry(x, y, n * ENTRY_SIZE, k);
    }
    hide EntryAt;
  }

  lemma SameEntry(x: seq<byte>, y: seq<byte>, n: nat, k: nat)
    requires (k + 1) * ENTRY_SIZE <= n <= |x| && n <= |y| && x[..n] == y[..n]
    ensures EntryAt(x, k) == EntryAt(y, k)
  {
    var at := k * ENTRY_SIZE;
    assert x[at..at + NAME_SIZE] == x[..n][at..at + NAME_SIZE] && y[at..at + NAME_SIZE] == y[..n][at..at + NAME_SIZE];
    assert x[at + NAME_SIZE] == x[..n][at + NAME_SIZE] && x[at + NAME_SIZE + 1] == x[..n][at + NAME_SIZE + 1];
  }

  // ---------- the map ----------

  /** The directory as a map from names to inode numbers; the first live entry of a name counts. */
  ghost function Dir(es: seq<DirEntry>): map<Name, uint16> {
    if es == [] then map[]
    else if es[0].ino == 0 then Dir(es[1..])
    else Dir(es[1..])[Key(es[0].name) := es[0].ino]
  }

  predicate Matches(e: DirEntry, key: Name) {
    e.ino != 0 && Key(e.name) == key
  }

  /** No two live entries have the same name. */
  ghost predicate UniqueNames(es: seq<DirEntry>) {
    forall i, j :: 0 <= i < j < |es| && es[i].ino != 0 && es[j].ino != 0 ==> Key(es[i].name) != Key(es[j].name)
  }

  lemma {:induction false} FirstMatch(es: seq<DirEntry>, key: Name, i: nat)
    requires i < |es| && Matches(es[i], key) && forall j :: 0 <= j < i ==> !Matches(es[j], key)
    ensures key in Dir(es) && Dir(es)[key] == es[i].ino
  {
    hide Key;
    if i > 0 {
      assert !Matches(es[0], key);
      FirstMatch(es[1..], key, i - 1);
    }
  }

  lemma {:induction false} NoMatch(es: seq<DirEntry>, key: Name)
    requires forall j :: 0 <= j < |es| ==> !Matches(es[j], key)
    ensures key !in Dir(es)
  {
    hide Key;
    if es != [] {
      assert !Matches(es[0], key);
      NoMatch(es[1..], key);
    }
  }

  /** Every live entry's name is in the map. */
  lemma {:induction false} LiveInDir(es: seq<DirEntry>, i: nat)
    requires i < |es| && es[i].ino != 0
    ensures Key(es[i].name) in Dir(es)
  {
    hide Key;
    if i > 0 {
      LiveInDir(es[1..], i - 1);
    }
  }

  // ---------- adding and removing one name ----------

  ghost predicate NoFreeSlot(es: seq<DirEntry>) {
    forall i :: 0 <= i < |es| ==> es[i].ino != 0
  }

  /** The first free slot, or the end. */
  function FreeIndex(es: seq<DirEntry>): (i: nat)
    ensures i <= |es| && (i < |es| ==> es[i].ino == 0) && forall j :: 0 <= j < i ==> es[j].ino != 0
  {
    if es == [] || es[0].ino == 0 then 0 else 1 + FreeIndex(es[1..])
  }

  /** The entries with one more: over the first free slot, or else at the end. */
  function Linked(es: seq<DirEntry>, e: DirEntry): seq<DirEntry> {
    var i := FreeIndex(es);
    if i < |es| then es[i := e] else es + [e]
  }

  /** Linking a new name adds exactly that name. */
  lemma {:induction false} LinkedDir(es: seq<DirEntry>, e: DirEntry)
    requires e.ino != 0 && Key(e.name) !in Dir(es)
    ensures Dir(Linked(es, e)) == Dir(es)[Key(e.name) := e.ino]
  {
    hide Key;
    if es == [] {
      assert Linked(es, e) == [e];
      assert Dir([e][1..]) == map[];
    } else if es[0].ino == 0 {
      assert Linked(es, e) == es[0 := e];
      assert es[0 := e][1..] == es[1..];
    } else {
      LinkedDir(es[1..], e);
      assert Linked(es, e)[1..] == Linked(es[1..], e) && Linked(es, e)[0] == es[0];
    }
  }

  lemma LinkedUnique(es: seq<DirEntry>, e: DirEntry)
    requires UniqueNames(es) && Key(e.name) !in Dir(es)
    ensures UniqueNames(Linked(es, e))
  {
    hide Key;
    forall i | 0 <= i < |es| && es[i].ino != 0 ensures Key(es[i].name) != Key(e.name) {
      LiveInDir(es, i);
    }
    hide Dir;
  }

  const FREE_ENTRY: DirEntry := DirEntry([0, 0, 0, 0, 0, 0, 0, 0, 0, 0, 0, 0, 0, 0], 0)

  /** Clearing a live entry removes exactly its name. */
  lemma {:induction false} ClearedDir(es: seq<DirEntry>, i: nat)
    requires UniqueNames(es) && i < |es| && es[i].ino != 0
    ensures Dir(es[i := FREE_ENTRY]) == Dir(es) - {Key(es[i].name)}
    ensures UniqueNames(es[i := FREE_ENTRY])
  {
    hide Key;
    var key, t := Key(es[i].name), es[1..];
    if i == 0 {
      assert es[0 := FREE_ENTRY][1..] == t;
      forall j | 0 <= j < |t| ensures !Matches(t[j], key) {
        assert t[j] == es[j + 1];
      }
      NoMatch(t, key);
    } else {
      assert forall j :: 0 <= j < |t| ==> t[j] == es[j + 1];
      ClearedDir(t, i - 1);
      assert es[i := FREE_ENTRY][1..] == t[i - 1 := FREE_ENTRY];
    }
  }

  /** Every inode number the map holds is some live entry's. */
  lemma {:induction false} DirValues(es: seq<DirEntry>, key: Name, inos: set<uint16>)
    requires forall i :: 0 <= i < |es| && es[i].ino != 0 ==> es[i].ino in inos
    ensures key in Dir(es) ==> Dir(es)[key] in inos
  {
    hide Key;
    if es != [] {
      assert forall i :: 0 <= i < |es[1..]| ==> es[1..][i] == es[i + 1];
      DirValues(es[1..], key, inos);
    }
  }
}
