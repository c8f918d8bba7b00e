/** Every operation on user memory leaves the kernel part of all directories, and FLAG_US, in place. */
module PagingLiveEntries {
  import opened Paging
  import opened PagingInvariant
  import opened PagingSteps
  import opened PagingEntries
  import opened PagingFork
  import opened PagingLive
  import opened PagingLiveCopy
  import opened PagingLiveFork
  import opened PagingLiveMap
  import opened PagingLiveRelease
  import opened PagingDeepCopy

  lemma LiveUserEntry(m: Mem, d: nat, i: nat)
    requires LiveInv(m) && IsDirectory(m, d) && UserIndex(i)
    ensures UserEntry(m, Loc(d, i)) && IsSlot(m, Loc(d, i))
  {
    DirectoryEntries(m, d, i);
  }

  lemma StoreKeeps(m: Mem, d: nat, i: nat, j: nat, offset: nat, v: int)
    requires LiveInv(m) && Flagged(m) && IsDirectory(m, d) && UserIndex(i) && Mapped(m, d, i, j)
    requires Store(m, d, i, j, offset, v).Some?
    ensures Kept(m, Store(m, d, i, j, offset, v).value)
  {
    LiveUserEntry(m, d, i);
    if CopyTable(m, Loc(d, i)).Some? {
      CopyTableLive(m, Loc(d, i));
    }
    hide LiveInv, CopyTable, Store, Flagged, Kept;
    StoreKept(m, d, i, j, offset, v);
  }

  lemma DemandMapKeeps(m: Mem, d: nat, i: nat, j: nat, bytes: seq<int>)
    requires LiveInv(m) && Flagged(m) && IsDirectory(m, d) && UserIndex(i) && |bytes| == FRAME_SIZE
    requires DemandMap(m, d, i, j, bytes).Some?
    ensures Kept(m, DemandMap(m, d, i, j, bytes).value)
  {
    var (m1, f) := Alloc(m, DataKind).value;
    var m2 := SetBytes(m1, f, bytes);
    LiveUserEntry(m, d, i);
    SpareFrame(m, bytes);
    AllocKept(m, DataKind);
    SetBytesKept(m1, f, bytes);
    LiveUserEntry(m2, d, i);
    hide Alloc, SetBytes, LiveInv, EnsureTable, MapAddress, Flagged;
    MapKeeps(m2, d, i, j, f, true);
    KeptTrans(m, m1, m2);
    KeptTrans(m, m2, MapAddress(m2, d, i, j, f, FLAG_US, true).value);
  }

  lemma MapKeeps(m: Mem, d: nat, i: nat, j: nat, f: nat, rw: bool)
    requires LiveInv(m) && Flagged(m) && IsDirectory(m, d) && UserIndex(i)
    requires MapAddress(m, d, i, j, f, FLAG_US, rw).Some?
    ensures Kept(m, MapAddress(m, d, i, j, f, FLAG_US, rw).value)
  {
    LiveUserEntry(m, d, i);
    EnsureTableLive(m, d, i, FLAG_US, rw);
    hide LiveInv, EnsureTable, Flagged;
    MapAddressKept(m, d, i, j, f, FLAG_US, rw);
  }

  lemma ZeroMapKeeps(m: Mem, d: nat, i: nat, j: nat)
    requires LiveInv(m) && m.kernelRefs == 1 && Flagged(m) && IsDirectory(m, d) && UserIndex(i) && ZeroMap(m, d, i, j).Some?
    ensures Kept(m, ZeroMap(m, d, i, j).value)
  {
    var m0 := RefZero(m);
    RefZeroLive(m);
    SameFramesKept(m, m0);
    hide LiveInv, MapAddress;
    MapKeeps(m0, d, i, j, m.zero, false);
    var m1 := MapAddress(m0, d, i, j, m.zero, FLAG_US, false).value;
    SameFramesKept(m1, m1.(kernelRefs := m.kernelRefs));
    hide Flagged, RefZero;
    KeptTrans(m, m0, m1);
    KeptTrans(m, m1, m1.(kernelRefs := m.kernelRefs));
  }

  lemma FreeDirectoryKeeps(m: Mem, d: nat)
    requires LiveInv(m) && Flagged(m) && IsDirectory(m, d)
    ensures Kept(m, FreeDirectory(m, d))
  {
    forall k: nat | USER_DIR_START <= k < USER_DIR_END
      ensures Turn(m, d, k)
    {
      UnrefTablesLive(m, d, k);
      LiveUserEntry(UnrefTablesFrom(m, d, k), d, k);
    }
    hide LiveInv, Turn, UnrefTablesFrom, Flagged;
    UnrefTablesKept(m, d, USER_DIR_END);
    var m1 := UnrefTablesFrom(m, d, USER_DIR_END);
    DeallocKept(m1, d);
    KeptTrans(m, m1, Dealloc(m1, d));
  }

  lemma CloneFlagged(m: Mem, d: nat)
    requires LiveInv(m) && Flagged(m) && IsDirectory(m, d) && CloneDirectory(m, d).Some?
    ensures Flagged(CloneDirectory(m, d).value.0)
  {
    FreshDirectoryLive(m);
    var (m1, c) := Alloc(m, DirectoryKind).value;
    NewDirectoryFlagged(m, m1, c, Zeroed(DirectoryKind).entries);
    LiveWellFormed(m1);
    hide Alloc, LiveInv;
    CloneUpToCopied(m1, d, c, ENTRIES);
  }

  lemma DeepCloneFlagged(m: Mem, d: nat)
    requires LiveInv(m) && Flagged(m) && IsDirectory(m, d) && DeepCloneDirectory(m, d).Some?
    ensures Flagged(DeepCloneDirectory(m, d).value.0)
  {
    FreshDirectoryLive(m);
    var (m1, c) := Alloc(m, DirectoryKind).value;
    NewDirectoryFlagged(m, m1, c, Zeroed(DirectoryKind).entries);
    hide Alloc;
    forall k: nat | k < ENTRIES
      ensures DeepTurn(m1, d, c, k)
    {
      DeepTurns(m1, d, c, k);
    }
    hide LiveInv, DeepTurn, DeepTablesUpTo;
    DeepTablesFlagged(m1, d, c, ENTRIES);
  }

  lemma DeepTurns(m: Mem, d: nat, c: nat, k: nat)
    requires LiveInv(m) && IsDirectory(m, d) && IsDirectory(m, c) && d != c && k < ENTRIES
    requires forall i: nat :: !At(m, Loc(c, i)).pr
    ensures DeepTurn(m, d, c, k)
  {
    hide LiveInv;
    if DeepTablesUpTo(m, d, c, k).Some? {
      DeepTablesLive(m, d, c, k);
      if UserIndex(k) {
        LiveUserEntry(DeepTablesUpTo(m, d, c, k).value, d, k);
      }
    }
  }
}
