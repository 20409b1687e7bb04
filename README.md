# ECS150-FS metadata layer in Dafny

This project models the metadata half of the ECS150-FS filesystem library
(`libfs/fs.c`). An ECS150-FS volume is a virtual disk of 4096-byte blocks:
- block 0 is the superblock (signature `ECS150FS`, block counts and indices);
- blocks 1 .. fat_block_amount hold the FAT, 2048 little-endian 16-bit entries per block;
- one block holds the root directory, 128 packed 32-byte records;
- the data blocks follow.

A FAT entry is 0 for a free data block. Otherwise it names the next block of a
file's chain, or is 0xFFFF (FAT_EOC) at the chain's end. The same value 0xFFFF
also serves as the first-block index of a file that owns no block
(`Layout.NO_BLOCKS`).

The model follows the library's structure:

- `Bytes` (bytes.dfy): `u8`/`u16`/`u32`, the `Block` type and the
  little-endian codecs of the packed records, with round-trip lemmas.
- `Layout` (layout.dfy): the superblock, root-entry and FAT-block records
  and their byte layout.
  - The FAT as mount loads it: one flat sequence, block after block.
  - Where FAT entry b sits on disk: block 1 + b / 2048, offset b % 2048.
- `Fat` (fat.dfy): chains (`IsChain`), freeing a chain (`Freed`), the free
  count (`CountFree`) and writing FAT blocks back (`FlushFat`).
- `Directory` (directory.dfy): names as C strings in NUL-padded fields.
  - The two slot scans: `FindSlot` (strcmp) and `FirstFree`.
  - The directory after a create or a delete, the free-slot count and the ls listing.
- `FileSystem` (fs.dfy): the mounted state as a class, plus `StageOf`, which
  says how far `fs_mount` gets on a disk image.
  - The fields are the superblock, the FAT as an `array<u16>`, the root
    directory as an `array<Slot>` and the disk blocks.
  - The methods are `Mount`, `Umount`, `Info`, `Create`, `Delete` and `Ls`.
    `Umount`, `Info`, `Create`, `Delete` and `Ls` each return -1 (or `None`
    for the reporting operations) when nothing is mounted.
  - The methods are proved against the specification functions of the modules
    above.
  - `InSync` states that the in-memory FAT and directory agree with the disk
    blocks they were read from. `Create` and `Delete` preserve it.
- `MountLifecycle` (lifecycle.dfy): the three global pointers whose
  non-NULL-ness every operation takes as "mounted", and the finding below.

The block device is the `disk` field, a sequence of blocks. A read or write of
block i fails exactly when i is past the last block. A disk that cannot be
opened is `Mount(None)`. What `fs_info` and `fs_ls` print is returned as a
value (`FsInfo`, a sequence of `FileStat`).

## Model

| member | source | states |
|---|---|---|
| Bytes.Le16BytesOfLe16 | libfs/fs.c:22-30 | a 16-bit superblock field read little-endian from two bytes re-encodes to the same two bytes |
| Bytes.Le32Bytes | libfs/fs.c:38-43 | encoding a 32-bit `file_size` gives four bytes that decode back to it |
| Bytes.Le32BytesOfLe32 | libfs/fs.c:38-43 | any four bytes decoded as `file_size` re-encode to the same four bytes |
| Bytes.DecodeEncodeU16s | libfs/fs.c:33-35 | a FAT block's entry array survives packing and unpacking |
| Bytes.EncodeDecodeU16s | libfs/fs.c:33-35 | any even-length byte block unpacked to entries and repacked is unchanged |
| Bytes.DecodeU16sAt | libfs/fs.c:33-35 | entry j of a packed FAT block is the little-endian pair at bytes 2j and 2j+1 |
| Layout.ParseSuperBlock | libfs/fs.c:22-30 | the superblock read from a block has an 8-byte signature, and laying its fields out again gives back the block's 17 packed bytes |
| Layout.SuperBlockRoundTrip | libfs/fs.c:22-30 | parsing an encoded superblock gives back signature, total_block_amount, root_block_index, data_block_index, data_block_amount and fat_block_amount |
| Layout.EntryRoundTrip | libfs/fs.c:38-43 | decoding an encoded 32-byte root record gives back name, size, first block and padding |
| Layout.DecodeEntry | libfs/fs.c:38-43 | any 32 bytes decoded as a root record re-encode to the same bytes |
| Layout.DecodeEncodeRoot | libfs/fs.c:117-123 | a directory written as a block reads back as the same records |
| Layout.DecodeRoot | libfs/fs.c:117-123 | a block read as packed records has one record per 32 bytes, and writing the records back gives the same block |
| Layout.FatFromDisk | libfs/fs.c:101-107 | the FAT loaded from `count` blocks has 2048 * count entries |
| Layout.FatFromDiskBlock | libfs/fs.c:101-107 | entries 2048k .. 2048k+2047 of the loaded FAT are exactly disk block 1 + k decoded |
| Layout.FatEntryOnDisk | libfs/fs.c:294-296 | loaded FAT entry b is the little-endian pair at offset 2 * (b % 2048) of disk block 1 + b / 2048 |
| Layout.FatBlockBytesOfLoaded | libfs/fs.c:101-107 | writing back a FAT block that was just loaded writes the bytes already on disk |
| Layout.FatBlockBytesAt | libfs/fs.c:299-301 | entry r of FAT block k as written to disk reads back as FAT entry 2048k + r |
| Layout.FatBlockOf | libfs/fs.c:294 | entry b below 2048 * count lies in FAT block b / 2048, which is below count |
| Layout.FatBlockBytesOther | libfs/fs.c:296-301 | changing an entry of FAT block k leaves the bytes of every other FAT block unchanged |
| Layout.EntryInBlock | libfs/fs.c:294 | an entry between 2048k and 2048(k+1) belongs to FAT block k |
| Fat.IsChain | libfs/fs.c:292-307 | a well-formed chain is empty exactly when the walk starts at 0xFFFF |
| Fat.ChainFits | libfs/fs.c:292-307 | a chain has no more blocks than the FAT has entries or than the bound allows, so the delete walk ends within that many steps |
| Fat.ChainOf | libfs/fs.c:292-307 | the chosen sequence is a chain from the first block: distinct blocks, each entry naming the next, the last holding 0xFFFF |
| Fat.ChainUnique | libfs/fs.c:292-307 | the blocks the delete walk visits are determined by the FAT and the first block |
| Fat.ChainLinksNotEoc | libfs/fs.c:293 | only the last block of a chain holds 0xFFFF, so the walk stops exactly there |
| Fat.NoBlocksChain | libfs/fs.c:292-293 | a file whose first block is 0xFFFF has the empty chain and no other |
| Fat.Freed | libfs/fs.c:292-307 | after freeing a chain every entry on it is 0 and every other entry keeps its value |
| Fat.FreedSnoc | libfs/fs.c:296 | freeing one more block of the walk sets that one entry to 0 |
| Fat.FreedKeepsOtherChains | libfs/fs.c:292-307 | freeing a chain leaves every chain disjoint from it intact |
| Fat.CountFree | libfs/fs.c:191-197 | the count of zero entries is at most the number of entries |
| Fat.CountFreeSetFree | libfs/fs.c:296 | zeroing an entry in use raises the free count by one |
| Fat.FreedStep | libfs/fs.c:292-307 | freeing a chain is freeing its first block, then the rest |
| Fat.CountFreeFreed | libfs/fs.c:292-307 | freeing a chain of entries in use raises the free count by the chain's length |
| Fat.ChainEntriesInUse | libfs/fs.c:292-307 | the entries of a chain are non-zero unless the chain links to data block 0 |
| Fat.FreedPrefix | libfs/fs.c:191-197 | freeing a chain below n commutes with keeping the first n entries |
| Fat.FatBlocksOfSnoc | libfs/fs.c:294-301 | the FAT blocks written by the walk grow by the block of each freed entry |
| Fat.ChainWalkStep | libfs/fs.c:292-307 | mid-walk, the current entry still names the next block (or 0xFFFF), and freeing it extends the freed prefix |
| Fat.FlushFat | libfs/fs.c:299-304 | writing FAT blocks back puts FAT block k's bytes in disk block 1 + k for each written k; the superblock and every block 1 + k with k not written keep their contents |
| Fat.FlushFatStep | libfs/fs.c:294-304 | freeing entry b and writing back FAT block b / 2048 to disk block 1 + b / 2048 changes no other block |
| Fat.FlushedEntryOnDisk | libfs/fs.c:299-304 | once FAT block k is written back, disk block 1 + k holds entry 2048k + r at offset r |
| Fat.FreeingRaisesFreeCount | libfs/fs.c:191-197 | after a delete frees a chain below data_block_amount whose links never name data block 0 (so no entry on it already holds 0), the free count `fs_info` reports rises by the chain's length; by 0 for a file with no blocks |
| Fat.FreedChainOnDisk | libfs/fs.c:292-307 | after the walk, every entry 2048k + r of the chain lies in a FAT block (k below fat_block_amount) and reads 0 on disk, in block 1 + k at entry offset r |
| Fat.FlushFreedInSync | libfs/fs.c:292-307 | after the walk, every FAT block on disk holds the freed FAT's bytes, touched or not |
| Fat.FreedUntouchedBlock | libfs/fs.c:292-301 | freeing a chain leaves the bytes of a FAT block holding none of its entries unchanged |
| Directory.CStr | libfs/fs.c:229 | the name in a field is the bytes before the first NUL (the whole field if none) |
| Directory.CStrOfTerminated | libfs/fs.c:251 | a field holding a name, a NUL, then anything stores that name |
| Directory.IsFree | libfs/fs.c:200-205 | a slot counts as free exactly when its name is the empty C string (first byte NUL) |
| Directory.FindSlot | libfs/fs.c:278-289 | the result is the lowest slot whose name strcmp finds equal to the given name, or none if no slot matches |
| Directory.FirstFree | libfs/fs.c:236-242 | the result is the lowest slot whose name starts with NUL, or none if there is none |
| Directory.CreateSlot | libfs/fs.c:222-248 | create claims a slot iff the name is present, shorter than 16, equal to no slot's name (free slots included) and some slot is free; the slot is the lowest free one |
| Directory.Claim | libfs/fs.c:251-253 | the claimed slot stores the name, size 0 and first block 0xFFFF; the name bytes after the terminator and the padding keep their old contents |
| Directory.Created | libfs/fs.c:222-253 | create succeeds exactly when `CreateSlot` picks a slot; then only that slot changes: it was free, and now holds the name, size 0 and first block 0xFFFF |
| Directory.DeleteSlot | libfs/fs.c:273-289 | delete fails exactly on a missing, empty or too long name or a name no slot holds; otherwise it picks the lowest slot holding the name, which is in use |
| Directory.CountFreeSlots | libfs/fs.c:200-205 | the number of free slots is at most the number of slots |
| Directory.CountFreeSlotsUpdate | libfs/fs.c:309 | replacing one slot changes the free count only by the free-ness of the old and new record |
| Directory.CreateRejectsEmptyName | libfs/fs.c:227-248 | create always refuses the empty name: it matches a free slot, or no slot is free |
| Directory.CreateEffects | libfs/fs.c:227-253 | after a create the name is found in the claimed slot, a second create of it fails, one free slot fewer remains and unique names stay unique |
| Directory.DeleteEffects | libfs/fs.c:309 | zeroing the found slot frees one more slot; with unique names the deleted name is then found nowhere |
| Directory.ListedSlots | libfs/fs.c:332-341 | ls visits only slots in use, in strictly ascending order |
| Directory.ListedSlotsComplete | libfs/fs.c:332-341 | ls visits every slot in use; listed plus free slots make up the directory |
| Directory.Listing | libfs/fs.c:332-341 | the i-th reported record is the name, size and first block of the i-th listed slot |
| Directory.CreateThenListed | libfs/fs.c:251-253 | after a create, ls reports the new name with size 0 and first block 0xFFFF |
| FileSystem.StageOf | libfs/fs.c:62-123 | mount's checks run in order: the open, the superblock read, the signature, the block count, the FAT reads; a later stage is reached only when every earlier check passed |
| FileSystem.Load | libfs/fs.c:66-123 | the loaded volume has block 0's superblock with the signature, 2048 * fat_block_amount FAT entries and 128 slots that re-encode to the root block |
| FileSystem.MountRejects | libfs/fs.c:74-87 | a wrong signature or a block count other than the disk's makes mount fail after opening |
| FileSystem.MountFailsAt | libfs/fs.c:66-123 | on a readable block 0, mount stops at the signature, the block count, the FAT reads or the root read exactly when that check fails and every earlier one passed |
| FileSystem.MountAccepts | libfs/fs.c:62-123 | mount succeeds exactly when: the disk opens; the signature matches; the block count matches; FAT blocks and the root block are inside the disk |
| FileSystem.LoadInSync | libfs/fs.c:101-123 | the loaded volume has 2048 * fat_block_amount FAT entries and 128 slots; writing its FAT or root blocks back unchanged rewrites the bytes on disk |
| FileSystem.LoadSynced | libfs/fs.c:101-123 | a volume whose root block follows its FAT blocks is loaded in sync with its disk |
| FileSystem.CreateSynced | libfs/fs.c:255-259 | writing the new directory to root_block_index keeps memory and disk in sync |
| FileSystem.DeleteSynced | libfs/fs.c:292-315 | writing back each touched FAT block and then the directory keeps memory and disk in sync |
| FileSystem.ReadFat | libfs/fs.c:101-107 | the FAT loop fails iff some FAT block lies past the disk, and otherwise yields the loaded FAT |
| FileSystem.FileSystem.constructor | libfs/fs.c:52-54 | the globals start with nothing mounted |
| FileSystem.FileSystem.Mount | libfs/fs.c:59-134 | on open failure nothing changes; every later failure returns -1 with nothing mounted, as `MountLifecycle.MountCorrected` does (the library as written leaves the pointers set after a failed root read, see Findings); on success the superblock, FAT and directory are those on the disk and stay in sync with it |
| FileSystem.FileSystem.Umount | libfs/fs.c:136-173 | returns 0 iff something was mounted; afterwards nothing is |
| FileSystem.FileSystem.Info | libfs/fs.c:175-212 | fails iff unmounted; otherwise reports the superblock fields, the zero entries among the first data_block_amount FAT entries and the free slots, with their bounds |
| FileSystem.FileSystem.Create | libfs/fs.c:214-263 | fails iff unmounted or `Directory.Created` refuses; otherwise the directory becomes `Created`'s result and root_block_index is rewritten with it; the FAT never changes; sync is preserved |
| FileSystem.FileSystem.FindFile | libfs/fs.c:278-289 | the scan returns the slot `FindSlot` names, or -1 exactly when no slot matches |
| FileSystem.FileSystem.FindFreeSlot | libfs/fs.c:236-248 | the scan returns the slot `FirstFree` names, or -1 exactly when the directory is full |
| FileSystem.FileSystem.DeleteTarget | libfs/fs.c:268-289 | the slot delete will clear is an in-use slot of a mounted volume holding the name, which is 1 to 15 bytes long; there is none when nothing is mounted, the name is missing, empty or too long, or no slot holds it |
| FileSystem.FileSystem.Delete | libfs/fs.c:265-319 | on failure nothing changes; otherwise exactly the chain's entries become 0, the slot is zeroed, and the disk gets the touched FAT blocks then the directory; sync is preserved |
| FileSystem.FileSystem.FreeChain | libfs/fs.c:292-307 | the walk leaves the FAT with the chain freed and the disk with each touched FAT block written back |
| FileSystem.FileSystem.FreeEntry | libfs/fs.c:294-304 | entry b becomes 0 and FAT block b / 2048 is written to disk block 1 + b / 2048 |
| FileSystem.FileSystem.Ls | libfs/fs.c:321-345 | fails iff unmounted; otherwise reports `Listing` of the directory |
| FileSystem.UmountTwice | libfs/fs.c:138-141 | a second umount in a row returns -1 |
| MountLifecycle.MountAsWritten | libfs/fs.c:59-123 | as written, mount returns 0 iff it succeeds, yet every failure after opening leaves the superblock pointer set on freed memory |
| MountLifecycle.MountCorrected | libfs/fs.c:59-123 | corrected mount returns 0 iff it succeeds; success leaves all three pointers live, a failed open leaves them as they were, and after a failure past open nothing looks mounted; it never creates a dangling pointer |
| MountLifecycle.UmountGlobals | libfs/fs.c:136-158 | umount succeeds iff the globals look mounted and then sets all three to NULL; a refused umount changes nothing |
| MountLifecycle.CorrectedNeverDangles | libfs/fs.c:59-158 | under any sequence of corrected mounts and umounts no global points at freed memory |
| MountLifecycle.RootPastEndStage | libfs/fs.c:62-123 | a 3-block image with one FAT block naming root block 9 passes every check up to the root block read |
| MountLifecycle.DanglingAfterFailedMount | libfs/fs.c:117-123 | that image fails to mount, yet leaves all three globals non-NULL and freed |
| MountLifecycle.CorrectedAfterFailedMount | libfs/fs.c:117-123 | the same image under the corrected mount leaves nothing that looks mounted |

## Left out

- The block device internals of `disk.h` are not part of this model. A read or
  write fails only when the block index is past the end of the disk. Other
  device errors and the device's own open/closed state are not modelled, so
  the `block_disk_close` calls and their result are not either.
- Allocation failures of `malloc` are not modelled: allocation always succeeds.
- Diagnostics written with `fprintf`/`printf` are left out. `Info` and `Ls`
  return the printed values instead.
- The file descriptor table, and `fs_open`, `fs_close`, `fs_stat`,
  `fs_lseek`, `fs_write` and `fs_read`, are left out. Their bodies are empty
  in this version of the library.
- Mount does not keep the superblock's padding bytes. No operation reads them.
- Info requires that data_block_amount is at most the number of FAT entries
  loaded (2048 * fat_block_amount). Beyond that the library reads past its FAT
  buffer.
- Delete requires that the chain of the slot it will clear is well formed: the
  walk reaches 0xFFFF over distinct entries of the loaded FAT. On a chain that
  returns to an entry it already freed, the library reads 0 there and goes on
  at data block 0: it loops forever only if FAT[0]'s chain does, and otherwise
  ends after also freeing FAT[0]'s chain. A chain that leaves the loaded FAT makes it
  read and write outside its buffer. Neither walk is modelled.
- Delete: on success the disk is the touched FAT blocks, then the root block.
  If root_block_index is itself one of the FAT block numbers, the root write
  wins. `InSync` is claimed only for layouts whose root block follows the FAT.
- Mount: while a volume is mounted its disk is open, and the block layer
  refuses a second `block_disk_open`. The model expresses that refused open as
  the caller passing `None` (nothing changes); `Mount(Some(..))` stands for an
  open that succeeds. Were a second open accepted, the library would leak all
  three earlier buffers (superblock, FAT and root); the model does not track them.
- Directory.Listing reports a 16-byte name without a NUL as all 16 bytes. The
  library's `%s` would read past the field.
- The cleanup path of a failed FAT or root read (it does not close the disk) is
  modelled only through the pointers it leaves (see Findings).

## Findings

| source | as written | input that shows it | evidently intended | confidence | as-written member | corrected member |
|---|---|---|---|---|---|---|
| libfs/fs.c:118-123 | a failed read of the root directory block frees the superblock, FAT and root buffers but leaves all three global pointers set; later calls test only for NULL, so they treat the volume as mounted and use freed memory (earlier failures also leave the superblock pointer freed, but the root pointer is still NULL, so the mounted test refuses) | a 3-block image with a valid signature, fat_block_amount 1 and root_block_index 9: mount returns -1, then `fs_info` or `fs_umount` passes its mounted check | a failed mount leaves nothing mounted (pointers reset to NULL) | not executed | MountLifecycle.DanglingAfterFailedMount | MountLifecycle.MountCorrected |
