/** The two-level open-file table: a system table of open instances, and for each user a row of file
    descriptors that point into it. */
module OpenFileTables {
  import opened Bytes

  const MAX_OPEN_FILE := 20
  const SYS_OPEN_FILE := 40
  const MAX_USER := 8
  const NO_INODE: uint16 := 0xFFFF

  /** O_READ is bit 0; a descriptor opened with O_WRITE (bit 1) or O_APPEND (bit 2) can write. */
  predicate CanRead(flags: byte) { flags % 2 == 1 }
  predicate CanWrite(flags: byte) { (flags / 2) % 2 == 1 || (flags / 4) % 2 == 1 }

  datatype SysEntry = SysEntry(flag: byte, count: uint16, ino: uint16, offset: uint32)

  class OpenFileTable {
    const sysTable: array<SysEntry>
    const userTable: array2<int>

    ghost predicate Shape() {
      sysTable.Length == SYS_OPEN_FILE && userTable.Length0 == MAX_USER && userTable.Length1 == MAX_OPEN_FILE
    }

    /** The descriptors that point at system entry i. */
    ghost function Pointing(i: int): set<(int, int)>
      requires Shape()
      reads userTable
    {
      set u, f | 0 <= u < MAX_USER && 0 <= f < MAX_OPEN_FILE && userTable[u, f] == i :: (u, f)
    }

    /** Every descriptor is free or points into the system table, and every entry's count is the number
        of descriptors that point at it. */
    ghost predicate Valid()
      reads sysTable, userTable
    {
      && Shape()
      && (forall u, f :: 0 <= u < MAX_USER && 0 <= f < MAX_OPEN_FILE ==> -1 <= userTable[u, f] < SYS_OPEN_FILE)
      && (forall i :: 0 <= i < SYS_OPEN_FILE ==> sysTable[i].count == |Pointing(i)|)
    }

    constructor ()
      ensures Valid() && fresh(sysTable) && fresh(userTable)
      ensures forall u, f :: 0 <= u < MAX_USER && 0 <= f < MAX_OPEN_FILE ==> userTable[u, f] == -1
    {
      sysTable := new SysEntry[SYS_OPEN_FILE](_ => SysEntry(0, 0, 0, 0));
      userTable := new int[MAX_USER, MAX_OPEN_FILE]((_, _) => -1);
      new;
      forall i | 0 <= i < SYS_OPEN_FILE ensures Pointing(i) == {} {
      }
    }

    /** A descriptor in range that is in use. */
    predicate ValidFd(user: nat, fd: int)
      requires Shape()
      reads userTable
    {
      user < MAX_USER && 0 <= fd < MAX_OPEN_FILE && 0 <= userTable[user, fd] < SYS_OPEN_FILE
    }

    /** The open instance behind a descriptor. */
    ghost function Instance(user: nat, fd: int): SysEntry
      requires Shape() && ValidFd(user, fd)
      reads sysTable, userTable
    {
      sysTable[userTable[user, fd]]
    }

    /** Every instance but the one behind a descriptor. */
    ghost function OtherInstances(user: nat, fd: int): (others: map<int, SysEntry>)
      requires Shape()
      reads sysTable, userTable
    {
      map k | 0 <= k < SYS_OPEN_FILE && !(ValidFd(user, fd) && k == userTable[user, fd]) :: sysTable[k]
    }

    method AllocSysEntry() returns (i: int)
      requires Shape()
      ensures i == -1 <==> forall k :: 0 <= k < SYS_OPEN_FILE ==> sysTable[k].count != 0
      ensures i != -1 ==> 0 <= i < SYS_OPEN_FILE && sysTable[i].count == 0
    {
      for k := 0 to SYS_OPEN_FILE
        invariant forall j :: 0 <= j < k ==> sysTable[j].count != 0
      {
        if sysTable[k].count == 0 {
          return k;
        }
      }
      return -1;
    }

    /** Opens a file: the lowest free descriptor gets a new instance at offset 0.  It fails exactly when
        the user is unknown, the user's row is full, or the system table is. */
    method AllocFd(user: nat, ino: uint16, flags: byte) returns (fd: int)
      requires Valid()
      modifies sysTable, userTable
      ensures Valid()
      ensures fd == -1 <==>
                || user >= MAX_USER
                || (forall f :: 0 <= f < MAX_OPEN_FILE ==> old(userTable[user, f]) != -1)
                || (forall k :: 0 <= k < SYS_OPEN_FILE ==> old(sysTable[k].count) != 0)
      ensures fd != -1 ==>
                && ValidFd(user, fd)
                && old(userTable[user, fd]) == -1 && (forall f :: 0 <= f < fd ==> old(userTable[user, f]) != -1)
                && Instance(user, fd) == SysEntry(flags, 1, ino, 0)
      ensures forall u, f :: 0 <= u < MAX_USER && 0 <= f < MAX_OPEN_FILE && !(fd != -1 && u == user && f == fd) ==>
                userTable[u, f] == old(userTable[u, f])
      ensures forall u, f :: 0 <= u < MAX_USER && 0 <= f < MAX_OPEN_FILE && old(ValidFd(u, f)) ==>
                ValidFd(u, f) && Instance(u, f) == old(Instance(u, f))
    {
      if user >= MAX_USER {
        return -1;
      }
      fd := -1;
      for i := 0 to MAX_OPEN_FILE
        invariant fd == -1
        invariant forall j :: 0 <= j < i ==> userTable[user, j] != -1
      {
        if userTable[user, i] == -1 {
          fd := i;
          break;
        }
      }
      if fd == -1 {
        return;
      }
      var i := AllocSysEntry();
      if i == -1 {
        return -1;
      }
      NobodyPoints(i);
      sysTable[i] := SysEntry(flags, 1, ino, 0);
      userTable[user, fd] := i;
      assert Pointing(i) == {(user, fd)};
      assert forall k :: 0 <= k < SYS_OPEN_FILE && k != i ==> Pointing(k) == old(Pointing(k));
    }

    lemma NobodyPoints(i: int)
      requires Valid() && 0 <= i < SYS_OPEN_FILE && sysTable[i].count == 0
      ensures forall u, f :: 0 <= u < MAX_USER && 0 <= f < MAX_OPEN_FILE ==> userTable[u, f] != i
    {
      forall u, f | 0 <= u < MAX_USER && 0 <= f < MAX_OPEN_FILE ensures userTable[u, f] != i {
        assert (u, f) !in Pointing(i);
      }
    }

    lemma Unreferenced(i: int)
      requires Shape() && 0 <= i && Pointing(i) == {}
      ensures forall u, f :: 0 <= u < MAX_USER && 0 <= f < MAX_OPEN_FILE ==> userTable[u, f] != i
    {
      forall u, f | 0 <= u < MAX_USER && 0 <= f < MAX_OPEN_FILE ensures userTable[u, f] != i {
        assert (u, f) !in Pointing(i);
      }
    }

    method Detach(user: nat, fd: int)
      requires Shape() && ValidFd(user, fd)
      modifies userTable
      ensures userTable[user, fd] == -1
      ensures forall u, f :: 0 <= u < MAX_USER && 0 <= f < MAX_OPEN_FILE && !(u == user && f == fd) ==>
                userTable[u, f] == old(userTable[u, f])
      ensures |Pointing(old(userTable[user, fd]))| == |old(Pointing(userTable[user, fd]))| - 1
      ensures forall k :: 0 <= k < SYS_OPEN_FILE && k != old(userTable[user, fd]) ==> Pointing(k) == old(Pointing(k))
    {
      var i := userTable[user, fd];
      assert (user, fd) in Pointing(i);
      userTable[user, fd] := -1;
      assert Pointing(i) == old(Pointing(i)) - {(user, fd)};
    }

    /** Closes a descriptor.  The instance is cleared when its last descriptor goes; no other descriptor
        moves. */
    method FreeFd(user: nat, fd: int) returns (r: int)
      requires Valid()
      modifies sysTable, userTable
      ensures Valid()
      ensures r == if old(ValidFd(user, fd)) then 0 else -1
      ensures r == 0 ==> userTable[user, fd] == -1
      ensures r == 0 && old(Instance(user, fd)).count == 1 ==>
                sysTable[old(userTable[user, fd])] == SysEntry(0, 0, 0, 0)
      ensures r == 0 && old(Instance(user, fd)).count > 1 ==>
                sysTable[old(userTable[user, fd])] ==
                  old(Instance(user, fd)).(count := old(Instance(user, fd)).count - 1)
      ensures forall k :: 0 <= k < SYS_OPEN_FILE && !(r == 0 && k == old(userTable[user, fd])) ==>
                sysTable[k] == old(sysTable[k])
      ensures forall u, f :: 0 <= u < MAX_USER && 0 <= f < MAX_OPEN_FILE && !(r == 0 && u == user && f == fd) ==>
                userTable[u, f] == old(userTable[u, f])
      ensures forall u, f :: 0 <= u < MAX_USER && 0 <= f < MAX_OPEN_FILE && ValidFd(u, f) ==>
                Instance(u, f) == old(Instance(u, f)).(count := Instance(u, f).count)
    {
      if !ValidFd(user, fd) {
        return -1;
      }
      var i := userTable[user, fd];
      Detach(user, fd);
      sysTable[i] := sysTable[i].(count := sysTable[i].count - 1);
      if sysTable[i].count == 0 {
        sysTable[i] := SysEntry(0, 0, 0, 0);
        Unreferenced(i);
      }
      return 0;
    }

    /** Logout: empties the user's row and leaves every other user's descriptors alone. */
    method CloseAll(user: nat)
      requires Valid()
      modifies sysTable, userTable
      ensures Valid()
      ensures user < MAX_USER ==> forall f :: 0 <= f < MAX_OPEN_FILE ==> userTable[user, f] == -1
      ensures forall u, f :: 0 <= u < MAX_USER && 0 <= f < MAX_OPEN_FILE && u != user ==>
                userTable[u, f] == old(userTable[u, f])
      ensures forall u, f :: 0 <= u < MAX_USER && 0 <= f < MAX_OPEN_FILE && u != user && ValidFd(u, f) ==>
                Instance(u, f) == old(Instance(u, f)).(count := Instance(u, f).count)
    {
      if user >= MAX_USER {
        return;
      }
      for f := 0 to MAX_OPEN_FILE
        invariant Valid()
        invariant forall g :: 0 <= g < f ==> userTable[user, g] == -1
        invariant forall u, g :: 0 <= u < MAX_USER && 0 <= g < MAX_OPEN_FILE && u != user ==>
                  userTable[u, g] == old(userTable[u, g])
        invariant forall u, g :: 0 <= u < MAX_USER && 0 <= g < MAX_OPEN_FILE && u != user && ValidFd(u, g) ==>
                    Instance(u, g) == old(Instance(u, g)).(count := Instance(u, g).count)
      {
        if userTable[user, f] != -1 {
          var _ := FreeFd(user, f);
        }
      }
    }

    method GetInode(user: nat, fd: int) returns (ino: uint16)
      requires Shape()
      ensures ino == if ValidFd(user, fd) then Instance(user, fd).ino else NO_INODE
    {
      ino := if ValidFd(user, fd) then sysTable[userTable[user, fd]].ino else NO_INODE;
    }

    method GetOffset(user: nat, fd: int) returns (offset: uint32)
      requires Shape()
      ensures offset == if ValidFd(user, fd) then Instance(user, fd).offset else 0
    {
      offset := if ValidFd(user, fd) then sysTable[userTable[user, fd]].offset else 0;
    }

    method GetFlags(user: nat, fd: int) returns (flags: byte)
      requires Shape()
      ensures flags == if ValidFd(user, fd) then Instance(user, fd).flag else 0
    {
      flags := if ValidFd(user, fd) then sysTable[userTable[user, fd]].flag else 0;
    }

    /** Moves the instance behind a descriptor; descriptors that share the instance move with it, and no
        other instance does. */
    method SetOffset(user: nat, fd: int, offset: uint32) returns (r: int)
      requires Valid()
      modifies sysTable
      ensures Valid() && r == if ValidFd(user, fd) then 0 else -1
      ensures r == 0 ==> Instance(user, fd) == old(Instance(user, fd)).(offset := offset)
      ensures OtherInstances(user, fd) == old(OtherInstances(user, fd))
    {
      if !ValidFd(user, fd) {
        return -1;
      }
      var i := userTable[user, fd];
      sysTable[i] := sysTable[i].(offset := offset);
      return 0;
    }
  }
}
