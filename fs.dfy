/**
 * The mounted state of an ECS150-FS volume and the operations of the
 * filesystem layer: mount, umount, info, create, delete and ls.
 */
module FileSystem {
  import opened Wrappers
  import opened Bytes
  import opened Layout
  import opened Fat
  import opened Directory

  /**
   * How far mounting a disk image gets. `None` stands for a disk that cannot
   * be opened; a block read fails when its index is past the last block.
   */
  datatype MountStage =
    | OpenFailed
    | SuperBlockUnreadable
    | BadSignature
    | WrongBlockCount
    | FatUnreadable
    | RootUnreadable
    | Mounted

  /**
   * The checks run in order, and a stage past a check is reached only when
   * that check passed: the disk opened, block 0 was read, the signature
   * matched, the block count matched, the FAT blocks were read.
   */
  function StageOf(image: Option<seq<Block>>): (s: MountStage)
    ensures s == OpenFailed <==> image.None?
    ensures s == SuperBlockUnreadable <==> image == Some([])
    ensures s in {WrongBlockCount, FatUnreadable, RootUnreadable, Mounted} ==>
      image.Some? && |image.value| > 0 && ParseSuperBlock(image.value[0]).signature == SIGNATURE
    ensures s in {FatUnreadable, RootUnreadable, Mounted} ==>
      image.Some? && |image.value| > 0 && ParseSuperBlock(image.value[0]).totalBlocks as int == |image.value|
    ensures s in {RootUnreadable, Mounted} ==>
      image.Some? && |image.value| > 0 && ParseSuperBlock(image.value[0]).fatBlocks as int < |image.value|
  {
    if image.None? then OpenFailed
    else if |image.value| == 0 then SuperBlockUnreadable
    else
      var disk := image.value;
      var sb := ParseSuperBlock(disk[0]);
      if sb.signature != SIGNATURE then BadSignature
      else if sb.totalBlocks as int != |disk| then WrongBlockCount
      else if sb.fatBlocks as int >= |disk| then FatUnreadable
      else if sb.rootIndex as int >= |disk| then RootUnreadable
      else Mounted
  }

  /**
   * An image whose block 0 does not start with the signature, or whose
   * superblock gives a block count other than the disk's, is refused after
   * the disk is opened.
   */
  lemma MountRejects(disk: seq<Block>)
    requires |disk| > 0
    requires ParseSuperBlock(disk[0]).signature != SIGNATURE
             || ParseSuperBlock(disk[0]).totalBlocks as int != |disk|
    ensures StageOf(Some(disk)) == BadSignature || StageOf(Some(disk)) == WrongBlockCount
    ensures ParseSuperBlock(disk[0]).signature != SIGNATURE ==> StageOf(Some(disk)) == BadSignature
  {
  }

  /**
   * Each failure stage after block 0 is read is reached exactly when its own
   * check fails and every earlier one passed.
   */
  lemma MountFailsAt(disk: seq<Block>)
    requires |disk| > 0
    ensures var s := StageOf(Some(disk));
            var sb := ParseSuperBlock(disk[0]);
            && (s == BadSignature <==> sb.signature != SIGNATURE)
            && (s == WrongBlockCount <==>
                  sb.signature == SIGNATURE && sb.totalBlocks as int != |disk|)
            && (s == FatUnreadable <==>
                  sb.signature == SIGNATURE && sb.totalBlocks as int == |disk|
                  && sb.fatBlocks as int >= |disk|)
            && (s == RootUnreadable <==>
                  sb.signature == SIGNATURE && sb.totalBlocks as int == |disk|
                  && sb.fatBlocks as int < |disk| && sb.rootIndex as int >= |disk|)
  {
  }

  /** Mounting succeeds exactly on an image with the signature, its own block count and readable FAT and root blocks. */
  lemma MountAccepts(disk: seq<Block>)
    ensures StageOf(Some(disk)) == Mounted <==>
      && |disk| > 0
      && ParseSuperBlock(disk[0]).signature == SIGNATURE
      && ParseSuperBlock(disk[0]).totalBlocks as int == |disk|
      && ParseSuperBlock(disk[0]).fatBlocks as int < |disk|
      && ParseSuperBlock(disk[0]).rootIndex as int < |disk|
  {
  }

  /** The metadata a successful mount holds in memory. */
  datatype Volume = Volume(sb: SuperBlock, fat: seq<u16>, root: seq<Slot>)

  /**
   * The volume a successful mount loads: the superblock of block 0, the FAT
   * of blocks 1 .. fat_block_amount and the 128 records of the root block.
   */
  function Load(disk: seq<Block>): (v: Volume)
    requires StageOf(Some(disk)) == Mounted
    ensures v.sb == ParseSuperBlock(disk[0]) && v.sb.signature == SIGNATURE
    ensures |v.fat| == FAT_ENTRIES_PER_BLOCK * v.sb.fatBlocks as nat
    ensures |v.root| == MAX_ROOT_ENTRIES && EncodeRoot(v.root) == disk[v.sb.rootIndex]
  {
    var sb := ParseSuperBlock(disk[0]);
    Volume(sb, FatFromDisk(disk, sb.fatBlocks as nat), DecodeRoot(disk[sb.rootIndex]))
  }

  /**
   * A mounted volume has the signature and the disk's block count, 2048
   * entries per FAT block and 128 slots; writing any of its FAT blocks or
   * its root directory back unchanged rewrites the bytes already on disk.
   */
  lemma LoadInSync(disk: seq<Block>)
    requires StageOf(Some(disk)) == Mounted
    ensures var v := Load(disk);
            && v.sb.signature == SIGNATURE && v.sb.totalBlocks as int == |disk|
            && |v.fat| == FAT_ENTRIES_PER_BLOCK * v.sb.fatBlocks as nat
            && |v.root| == MAX_ROOT_ENTRIES
            && RootBlock(v.root) == disk[v.sb.rootIndex]
            && forall k | 0 <= k < v.sb.fatBlocks as nat :: FatBlockBytes(v.fat, k) == disk[1 + k]
  {
    var v := Load(disk);
    forall k | 0 <= k < v.sb.fatBlocks as nat
      ensures FatBlockBytes(v.fat, k) == disk[1 + k]
    {
      FatBlockBytesOfLoaded(disk, v.sb.fatBlocks as nat, k);
    }
  }

  /**
   * The metadata in memory agrees with the disk: FAT block k is the bytes of
   * disk block 1 + k and the root directory the bytes of block
   * root_block_index, which lies past the FAT blocks.
   */
  ghost predicate Synced(sb: SuperBlock, fat: seq<u16>, root: seq<Slot>, disk: seq<Block>)
  {
    && |fat| == FAT_ENTRIES_PER_BLOCK * sb.fatBlocks as nat
    && |root| == MAX_ROOT_ENTRIES
    && sb.fatBlocks as nat < sb.rootIndex as nat < |disk|
    && (forall k | 0 <= k < sb.fatBlocks as nat :: FatBlockBytes(fat, k) == disk[1 + k])
    && RootBlock(root) == disk[sb.rootIndex]
  }

  /** A volume whose root directory block follows its FAT blocks is loaded in sync with its disk. */
  lemma LoadSynced(disk: seq<Block>)
    requires StageOf(Some(disk)) == Mounted
    requires ParseSuperBlock(disk[0]).fatBlocks as nat < ParseSuperBlock(disk[0]).rootIndex as nat
    ensures var v := Load(disk); Synced(v.sb, v.fat, v.root, disk)
  {
    LoadInSync(disk);
  }

  /** Rewriting the root directory block with a new directory keeps the volume in sync. */
  lemma CreateSynced(sb: SuperBlock, fat: seq<u16>, root: seq<Slot>, disk: seq<Block>, root': seq<Slot>)
    requires Synced(sb, fat, root, disk) && |root'| == MAX_ROOT_ENTRIES
    ensures Synced(sb, fat, root', disk[sb.rootIndex := RootBlock(root')])
  {
    var disk' := disk[sb.rootIndex := RootBlock(root')];
    forall k | 0 <= k < sb.fatBlocks as nat
      ensures FatBlockBytes(fat, k) == disk'[1 + k]
    {
      assert 1 + k != sb.rootIndex as nat;
    }
  }

  /**
   * Freeing a chain, writing back the FAT blocks it touches and then the
   * root directory with slot k zeroed keeps the volume in sync.
   */
  lemma DeleteSynced(sb: SuperBlock, fat: seq<u16>, root: seq<Slot>, disk: seq<Block>, c: seq<nat>, k: nat)
    requires Synced(sb, fat, root, disk) && k < |root|
    ensures var fat' := Freed(fat, c);
            var root' := root[k := ZERO_ENTRY];
            Synced(sb, fat', root', FlushFat(disk, fat', FatBlocksOf(c))[sb.rootIndex := RootBlock(root')])
  {
    var fat' := Freed(fat, c);
    var flushed := FlushFat(disk, fat', FatBlocksOf(c));
    forall j | 0 <= j < sb.fatBlocks as nat
      ensures FatBlockBytes(fat', j) == flushed[1 + j]
    {
      FlushFreedInSync(disk, fat, sb.fatBlocks as nat, c, j);
    }
    CreateSynced(sb, fat', root, flushed, root[k := ZERO_ENTRY]);
  }

  /** What `fs_info` reports. */
  datatype FsInfo = FsInfo(
    totalBlocks: u16,
    fatBlocks: u8,
    rootIndex: u16,
    dataIndex: u16,
    dataBlocks: u16,
    fatFree: nat,
    rootFree: nat)

  /**
   * The FAT loop of `fs_mount`: reads disk blocks 1 .. count in order and
   * fails on the first that is past the end of the disk.
   */
  method ReadFat(disk: seq<Block>, count: nat) returns (r: Option<seq<u16>>)
    ensures r.None? <==> count >= |disk|
    ensures r.Some? ==> r.value == FatFromDisk(disk, count) && |r.value| == FAT_ENTRIES_PER_BLOCK * count
  {
    if |disk| == 0 {
      return None;
    }
    var entries: seq<u16> := [];
    var i := 0;
    while i < count
      invariant 0 <= i <= count && i < |disk|
      invariant entries == FatFromDisk(disk, i)
    {
      if 1 + i >= |disk| {
        return None;
      }
      entries := entries + DecodeU16s(disk[1 + i]);
      i := i + 1;
    }
    r := Some(entries);
  }

  /** A fresh array holding `s`, as the buffers `fs_mount` allocates and fills. */
  method ArrayOf<T>(s: seq<T>) returns (a: array<T>)
    ensures fresh(a) && a[..] == s
  {
    a := new T[|s|](i requires 0 <= i < |s| => s[i]);
  }

  class FileSystem {
    /** The superblock of the mounted volume; None when nothing is mounted. */
    var superBlock: Option<SuperBlock>
    /** The FAT of the mounted volume, all its blocks end to end. */
    var fat: array<u16>
    /** The root directory of the mounted volume. */
    var root: array<Slot>
    /** The blocks of the open virtual disk. */
    var disk: seq<Block>

    ghost predicate Valid()
      reads this
    {
      superBlock.Some? ==>
        var sb := superBlock.value;
        && root.Length == MAX_ROOT_ENTRIES
        && fat.Length == FAT_ENTRIES_PER_BLOCK * sb.fatBlocks as nat
        && |disk| == sb.totalBlocks as nat
        && sb.fatBlocks as nat < |disk|
        && sb.rootIndex as nat < |disk|
    }

    /** While a volume is mounted, its FAT and root directory agree with the disk. */
    ghost predicate InSync()
      reads this, fat, root
    {
      superBlock.Some? ==> Synced(superBlock.value, fat[..], root[..], disk)
    }

    constructor ()
      ensures Valid() && superBlock.None?
    {
      superBlock := None;
      fat := new u16[0];
      root := new Slot[0](_ => ZERO_ENTRY);
      disk := [];
    }

    /**
     * `fs_mount`: validates the superblock and loads the FAT and the root
     * directory. Every failure after the disk is open leaves nothing mounted.
     */
    method Mount(image: Option<seq<Block>>) returns (rc: int)
      requires Valid()
      modifies this
      ensures Valid()
      ensures StageOf(image) == OpenFailed ==>
        rc == -1 && superBlock == old(superBlock) && fat == old(fat) && root == old(root) && disk == old(disk)
      ensures StageOf(image) != OpenFailed && StageOf(image) != Mounted ==> rc == -1 && superBlock.None?
      ensures StageOf(image) == Mounted ==>
        var v := Load(image.value);
        && rc == 0 && superBlock == Some(v.sb) && fat[..] == v.fat && root[..] == v.root
        && disk == image.value && fresh(fat) && fresh(root)
      ensures StageOf(image) == Mounted
              && ParseSuperBlock(image.value[0]).fatBlocks as nat < ParseSuperBlock(image.value[0]).rootIndex as nat
              ==> InSync()
    {
      if image.None? {
        return -1;
      }
      var img := image.value;
      if |img| == 0 {
        superBlock := None;
        return -1;
      }
      var sb := ParseSuperBlock(img[0]);
      if sb.signature != SIGNATURE {
        superBlock := None;
        return -1;
      }
      if sb.totalBlocks as int != |img| {
        superBlock := None;
        return -1;
      }
      var loaded := ReadFat(img, sb.fatBlocks as nat);
      if loaded.None? {
        superBlock := None;
        return -1;
      }
      var entries := loaded.value;
      if sb.rootIndex as int >= |img| {
        superBlock := None;
        return -1;
      }
      var dir := DecodeRoot(img[sb.rootIndex]);
      fat := ArrayOf(entries);
      root := ArrayOf(dir);
      disk := img;
      superBlock := Some(sb);
      rc := 0;
      if sb.fatBlocks as nat < sb.rootIndex as nat {
        LoadSynced(img);
      }
    }

    /** `fs_umount`: fails when nothing is mounted, otherwise drops the mounted state. */
    method Umount() returns (rc: int)
      requires Valid()
      modifies this
      ensures Valid() && superBlock.None?
      ensures rc == (if old(superBlock).Some? then 0 else -1)
      ensures fat == old(fat) && root == old(root) && disk == old(disk)
    {
      if superBlock.None? {
        return -1;
      }
      superBlock := None;
      rc := 0;
    }

    /**
     * `fs_info`: the superblock fields, the free entries among the first
     * data_block_amount FAT entries, and the free root directory slots.
     */
    method Info() returns (r: Option<FsInfo>)
      requires Valid()
      requires superBlock.Some? ==> superBlock.value.dataBlocks as nat <= fat.Length
      ensures r.None? <==> superBlock.None?
      ensures r.Some? ==>
        var sb := superBlock.value;
        && r.value.totalBlocks == sb.totalBlocks && r.value.fatBlocks == sb.fatBlocks
        && r.value.rootIndex == sb.rootIndex && r.value.dataIndex == sb.dataIndex
        && r.value.dataBlocks == sb.dataBlocks
        && r.value.fatFree == CountFree(fat[..sb.dataBlocks]) && r.value.fatFree <= sb.dataBlocks as nat
        && r.value.rootFree == CountFreeSlots(root[..]) && r.value.rootFree <= MAX_ROOT_ENTRIES
    {
      if superBlock.None? {
        return None;
      }
      var sb := superBlock.value;
      var freeFatBlocks := 0;
      for i := 0 to sb.dataBlocks as int
        invariant freeFatBlocks == CountFree(fat[..i])
      {
        assert fat[..i + 1][..i] == fat[..i];
        if fat[i] == FAT_FREE {
          freeFatBlocks := freeFatBlocks + 1;
        }
      }
      var freeRootEntries := 0;
      for i := 0 to MAX_ROOT_ENTRIES
        invariant freeRootEntries == CountFreeSlots(root[..i])
      {
        assert root[..i + 1][..i] == root[..i];
        if IsFree(root[i]) {
          freeRootEntries := freeRootEntries + 1;
        }
      }
      assert root[..MAX_ROOT_ENTRIES] == root[..];
      r := Some(FsInfo(sb.totalBlocks, sb.fatBlocks, sb.rootIndex, sb.dataIndex, sb.dataBlocks,
                       freeFatBlocks, freeRootEntries));
    }

    /**
     * `fs_create`: rejects a NULL or too long name and a name equal to any
     * slot's name, then claims the lowest free slot and writes the root
     * directory block back. The FAT does not change.
     */
    method Create(filename: Option<CString>) returns (rc: int)
      requires Valid()
      modifies this, root
      ensures Valid()
      ensures superBlock == old(superBlock) && fat == old(fat) && root == old(root)
      ensures fat[..] == old(fat[..])
      ensures old(superBlock).None? ==> rc == -1 && root[..] == old(root[..]) && disk == old(disk)
      ensures old(superBlock).Some? ==>
        match Created(old(root[..]), filename)
        case None => rc == -1 && root[..] == old(root[..]) && disk == old(disk)
        case Some(r) =>
          rc == 0 && root[..] == r && disk == old(disk)[superBlock.value.rootIndex := RootBlock(r)]
      ensures old(InSync()) ==> InSync()
    {
      if superBlock.None? {
        return -1;
      }
      if filename.None? || |filename.value| >= MAX_FILENAME {
        return -1;
      }
      var name := filename.value;
      var existing := FindFile(name);
      if existing != -1 {
        return -1;
      }
      var emptyEntry := FindFreeSlot();
      if emptyEntry == -1 {
        return -1;
      }
      ghost var fat0, root0, disk0 := fat[..], root[..], disk;
      assert CreateSlot(root0, filename) == Some(emptyEntry as nat);
      root[emptyEntry] := Claim(root[emptyEntry], name);
      assert root[..] == root0[emptyEntry := Claim(root0[emptyEntry], name)];
      disk := disk[superBlock.value.rootIndex := RootBlock(root[..])];
      if Synced(superBlock.value, fat0, root0, disk0) {
        CreateSynced(superBlock.value, fat0, root0, disk0, root[..]);
      }
      rc := 0;
    }

    /**
     * The scan of the root directory shared by `fs_create` and `fs_delete`:
     * the lowest slot whose name `strcmp` finds equal to `name`, or -1.
     */
    method FindFile(name: CString) returns (k: int)
      requires Valid() && superBlock.Some? && |name| < MAX_FILENAME
      ensures k == -1 <==> FindSlot(root[..], name).None?
      ensures k != -1 ==> 0 <= k < MAX_ROOT_ENTRIES && FindSlot(root[..], name) == Some(k as nat)
    {
      k := -1;
      for i := 0 to MAX_ROOT_ENTRIES
        invariant k == -1
        invariant forall j | 0 <= j < i :: CStr(root[j].fileName) != name
      {
        if CStr(root[i].fileName) == name {
          k := i;
          break;
        }
      }
    }

    /** The scan of `fs_create` for the lowest free slot, or -1 when the directory is full. */
    method FindFreeSlot() returns (k: int)
      requires Valid() && superBlock.Some?
      ensures k == -1 <==> FirstFree(root[..]).None?
      ensures k != -1 ==> 0 <= k < MAX_ROOT_ENTRIES && FirstFree(root[..]) == Some(k as nat)
    {
      k := -1;
      for i := 0 to MAX_ROOT_ENTRIES
        invariant k == -1
        invariant forall j | 0 <= j < i :: !IsFree(root[j])
      {
        if IsFree(root[i]) {
          k := i;
          break;
        }
      }
    }

    /** The slot `fs_delete(filename)` clears, or None when it returns -1. */
    ghost function DeleteTarget(filename: Option<CString>): (k: Option<nat>)
      reads this, root
      ensures k.Some? ==> superBlock.Some? && k.value < root.Length
      ensures k.Some? ==> filename.Some? && CStr(root[k.value].fileName) == filename.value
      ensures k.Some? ==> 0 < |filename.value| < MAX_FILENAME && !IsFree(root[k.value])
      ensures k.None? ==>
        || superBlock.None? || filename.None? || |filename.value| == 0
        || |filename.value| >= MAX_FILENAME
        || forall j | 0 <= j < root.Length :: CStr(root[j].fileName) != filename.value
    {
      if superBlock.None? then None else DeleteSlot(root[..], filename)
    }

    /**
     * The chain of the file that `fs_delete(filename)` removes is well
     * formed: the walk from its first block reaches FAT_EOC over distinct
     * entries of the loaded FAT.
     */
    ghost predicate ChainWalkable(filename: Option<CString>)
      reads this, fat, root
    {
      DeleteTarget(filename).Some? ==>
        HasChain(fat[..], root[DeleteTarget(filename).value].firstDataBlock, fat.Length)
    }

    /**
     * `fs_delete`: rejects a NULL, empty or too long name and a name no slot
     * has; otherwise walks the file's chain from its first block to FAT_EOC,
     * freeing each entry and writing its FAT block back, then zeroes the slot
     * and writes the root directory block back.
     */
    method Delete(filename: Option<CString>) returns (rc: int)
      requires Valid() && ChainWalkable(filename)
      modifies this, fat, root
      ensures Valid()
      ensures superBlock == old(superBlock) && fat == old(fat) && root == old(root)
      ensures old(DeleteTarget(filename)).None? ==>
        rc == -1 && fat[..] == old(fat[..]) && root[..] == old(root[..]) && disk == old(disk)
      ensures old(DeleteTarget(filename)).Some? ==>
        var k := old(DeleteTarget(filename)).value;
        var c := old(ChainOf(fat[..], root[k].firstDataBlock, fat.Length));
        && rc == 0
        && fat[..] == Freed(old(fat[..]), c)
        && root[..] == old(root[..])[k := ZERO_ENTRY]
        && disk == FlushFat(old(disk), fat[..], FatBlocksOf(c))[superBlock.value.rootIndex := RootBlock(root[..])]
      ensures old(InSync()) ==> InSync()
    {
      if superBlock.None? {
        return -1;
      }
      if filename.None? || |filename.value| == 0 || |filename.value| >= MAX_FILENAME {
        return -1;
      }
      var fileIndex := FindFile(filename.value);
      if fileIndex == -1 {
        return -1;
      }
      var sb := superBlock.value;
      ghost var c := ChainOf(fat[..], root[fileIndex].firstDataBlock, fat.Length);
      ghost var fat0, root0, disk0 := fat[..], root[..], disk;
      FreeChain(root[fileIndex].firstDataBlock, c);
      root[fileIndex] := ZERO_ENTRY;
      disk := disk[sb.rootIndex := RootBlock(root[..])];
      if Synced(sb, fat0, root0, disk0) {
        DeleteSynced(sb, fat0, root0, disk0, c, fileIndex);
      }
      rc := 0;
    }

    /**
     * The walk of `fs_delete` over one chain: each entry from `start` to
     * FAT_EOC is set free and its FAT block written back to disk block
     * 1 + entry / 2048.
     */
    method FreeChain(start: u16, ghost c: seq<nat>)
      requires Valid() && superBlock.Some?
      requires IsChain(fat[..], start, fat.Length, c)
      modifies this, fat
      ensures Valid()
      ensures superBlock == old(superBlock) && fat == old(fat) && root == old(root)
      ensures fat[..] == Freed(old(fat[..]), c)
      ensures disk == FlushFat(old(disk), fat[..], FatBlocksOf(c))
    {
      var sb := superBlock.value;
      ghost var fat0 := fat[..];
      ghost var disk0 := disk;
      ghost var walked := 0;
      var currentBlock := start;
      while currentBlock != FAT_EOC
        invariant superBlock == old(superBlock) && fat == old(fat) && root == old(root)
        invariant |disk| == |disk0|
        invariant 0 <= walked <= |c|
        invariant currentBlock == if walked < |c| then c[walked] as u16 else FAT_EOC
        invariant fat[..] == Freed(fat0, c[..walked])
        invariant disk == FlushFat(disk0, fat[..], FatBlocksOf(c[..walked]))
        decreases |c| - walked
      {
        var block := currentBlock as nat;
        ChainWalkStep(fat0, start, fat.Length, c, walked);
        var nextBlockIndex := fat[block];
        ghost var before := fat[..];
        FreeEntry(block);
        FlushFatStep(disk0, before, FatBlocksOf(c[..walked]), block, block / FAT_ENTRIES_PER_BLOCK);
        currentBlock := nextBlockIndex;
        walked := walked + 1;
      }
      assert c[..walked] == c;
    }

    /**
     * Marks FAT entry `b` free and writes the FAT block holding it, block
     * b / 2048, back to disk block 1 + b / 2048.
     */
    method FreeEntry(b: nat)
      requires Valid() && superBlock.Some? && b < fat.Length
      modifies this, fat
      ensures Valid()
      ensures superBlock == old(superBlock) && fat == old(fat) && root == old(root)
      ensures FAT_ENTRIES_PER_BLOCK * (b / FAT_ENTRIES_PER_BLOCK) <= b < FAT_ENTRIES_PER_BLOCK * (b / FAT_ENTRIES_PER_BLOCK + 1) <= fat.Length
      ensures fat[..] == old(fat[..])[b := FAT_FREE]
      ensures disk == old(disk)[1 + b / FAT_ENTRIES_PER_BLOCK := FatBlockBytes(fat[..], b / FAT_ENTRIES_PER_BLOCK)]
    {
      var fatBlockIndex := b / FAT_ENTRIES_PER_BLOCK;
      FatBlockOf(b, superBlock.value.fatBlocks as nat);
      fat[b] := FAT_FREE;
      var diskBlockNum := 1 + fatBlockIndex;
      disk := disk[diskBlockNum := FatBlockBytes(fat[..], fatBlockIndex)];
    }

    /** `fs_ls`: the records of the non-free slots, in ascending slot order. */
    method Ls() returns (r: Option<seq<FileStat>>)
      requires Valid()
      ensures r.None? <==> superBlock.None?
      ensures r.Some? ==> r.value == Listing(root[..])
    {
      if superBlock.None? {
        return None;
      }
      var listed: seq<FileStat> := [];
      for i := 0 to MAX_ROOT_ENTRIES
        invariant listed == Listing(root[..i])
      {
        assert root[..i + 1][..i] == root[..i];
        if !IsFree(root[i]) {
          listed := listed + [Stat(root[i])];
        }
      }
      assert root[..MAX_ROOT_ENTRIES] == root[..];
      r := Some(listed);
    }
  }

  /** Unmounting ends the mounted state: a second umount fails. */
  method UmountTwice(fs: FileSystem) returns (first: int, second: int)
    requires fs.Valid()
    modifies fs
    ensures first == (if old(fs.superBlock).Some? then 0 else -1)
    ensures second == -1 && fs.superBlock.None?
  {
    first := fs.Umount();
    second := fs.Umount();
  }
}
