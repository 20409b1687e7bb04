/**
 * The file allocation table as a flat sequence of 16-bit entries: chains,
 * freeing a chain, and counting free entries.
 */
module Fat {
  import opened Bytes
  import opened Layout

  /**
   * `c` lists, in walk order, the data blocks of the chain that starts at
   * `start`: distinct blocks below `bound` (and inside the FAT), the entry
   * of each naming the next block and the entry of the last one FAT_EOC.
   * The chain starting at FAT_EOC is empty, and only that one.
   */
  ghost predicate IsChain(fat: seq<u16>, start: u16, bound: nat, c: seq<nat>)
    ensures IsChain(fat, start, bound, c) ==> (c == [] <==> start == FAT_EOC)
  {
    && (forall i | 0 <= i < |c| :: c[i] < bound && c[i] < |fat| && c[i] < FAT_EOC as nat)
    && (forall i, j | 0 <= i < j < |c| :: c[i] != c[j])
    && (if c == [] then start == FAT_EOC else start as nat == c[0] && fat[c[|c| - 1]] == FAT_EOC)
    && (forall i | 0 <= i < |c| - 1 :: fat[c[i]] == c[i + 1] as u16)
  }

  /** The walk from `start` reaches FAT_EOC over distinct blocks below `bound`. */
  ghost predicate HasChain(fat: seq<u16>, start: u16, bound: nat)
  {
    exists c :: IsChain(fat, start, bound, c)
  }

  ghost function ChainOf(fat: seq<u16>, start: u16, bound: nat): (c: seq<nat>)
    requires HasChain(fat, start, bound)
    ensures IsChain(fat, start, bound, c)
  {
    var c :| IsChain(fat, start, bound, c); c
  }

  /** A chain is determined by the FAT and its first block. */
  lemma ChainUnique(fat: seq<u16>, start: u16, bound: nat, c1: seq<nat>, c2: seq<nat>)
    requires IsChain(fat, start, bound, c1) && IsChain(fat, start, bound, c2)
    ensures c1 == c2
  {
    if c1 == [] || c2 == [] {
      assert start == FAT_EOC;
    } else {
      var n := if |c1| < |c2| then |c1| else |c2|;
      var i := 0;
      while i < n
        invariant 0 <= i <= n
        invariant forall j | 0 <= j < i :: c1[j] == c2[j]
      {
        if i > 0 {
          assert c1[i] as u16 == fat[c1[i - 1]] == fat[c2[i - 1]] == c2[i] as u16;
        }
        i := i + 1;
      }
      ChainLinksNotEoc(fat, start, bound, c1);
      ChainLinksNotEoc(fat, start, bound, c2);
      assert fat[c1[n - 1]] == fat[c2[n - 1]];
    }
  }

  /** Only the last entry of a chain holds FAT_EOC. */
  lemma ChainLinksNotEoc(fat: seq<u16>, start: u16, bound: nat, c: seq<nat>)
    requires IsChain(fat, start, bound, c)
    ensures forall i | 0 <= i < |c| - 1 :: fat[c[i]] != FAT_EOC
  {
    forall i | 0 <= i < |c| - 1
      ensures fat[c[i]] != FAT_EOC
    {
      assert c[i + 1] < FAT_EOC as nat;
    }
  }

  /**
   * A chain is no longer than the FAT and than `bound`: the walk of a
   * deletion ends after at most that many steps.
   */
  lemma ChainFits(fat: seq<u16>, start: u16, bound: nat, c: seq<nat>)
    requires IsChain(fat, start, bound, c)
    ensures |c| <= |fat| && |c| <= bound
  {
    DistinctCard(c);
    var n := if |fat| < bound then |fat| else bound;
    forall x | x in c
      ensures x < n
    {
      var i :| 0 <= i < |c| && c[i] == x;
    }
    SetBelow((set x: nat | x in c), n);
  }

  /** The elements of a sequence without repetition number its length. */
  lemma {:induction false} DistinctCard(c: seq<nat>)
    requires forall i, j | 0 <= i < j < |c| :: c[i] != c[j]
    ensures |set x: nat | x in c| == |c|
  {
    if c != [] {
      var p := c[..|c| - 1];
      DistinctCard(p);
      assert c[|c| - 1] !in p;
      assert (set x: nat | x in c) == (set x: nat | x in p) + {c[|c| - 1]};
    }
  }

  /** A set of naturals below n has at most n elements. */
  lemma {:induction false} SetBelow(s: set<nat>, n: nat)
    requires forall x | x in s :: x < n
    ensures |s| <= n
  {
    if n > 0 {
      SetBelow(s - {n - 1}, n - 1);
    } else {
      assert s == {};
    }
  }

  /** A file that owns no block (first block NO_BLOCKS) has the empty chain, and only it. */
  lemma NoBlocksChain(fat: seq<u16>, bound: nat, c: seq<nat>)
    ensures IsChain(fat, NO_BLOCKS, bound, c) <==> c == []
  {
  }

  /** The FAT after every entry on `c` is set to FAT_FREE. */
  function Freed(fat: seq<u16>, c: seq<nat>): (r: seq<u16>)
    ensures |r| == |fat|
    ensures forall i | 0 <= i < |fat| && i in c :: r[i] == FAT_FREE
    ensures forall i | 0 <= i < |fat| && i !in c :: r[i] == fat[i]
  {
    seq(|fat|, i requires 0 <= i < |fat| => if i in c then FAT_FREE else fat[i])
  }

  /** Freeing one more block of a chain. */
  lemma FreedSnoc(fat: seq<u16>, c: seq<nat>, b: nat)
    requires b < |fat|
    ensures Freed(fat, c + [b]) == Freed(fat, c)[b := FAT_FREE]
  {
    forall i | 0 <= i < |fat|
      ensures Freed(fat, c + [b])[i] == Freed(fat, c)[b := FAT_FREE][i]
    {
      assert i in c + [b] <==> i in c || i == b;
    }
  }

  /** Freeing one chain leaves every chain disjoint from it intact. */
  lemma FreedKeepsOtherChains(fat: seq<u16>, c: seq<nat>, start: u16, bound: nat, other: seq<nat>)
    requires IsChain(fat, start, bound, other)
    requires forall i | 0 <= i < |other| :: other[i] !in c
    ensures IsChain(Freed(fat, c), start, bound, other)
  {
    var f := Freed(fat, c);
    if other != [] {
      assert f[other[|other| - 1]] == fat[other[|other| - 1]];
    }
    forall i | 0 <= i < |other| - 1
      ensures f[other[i]] == other[i + 1] as u16
    {
      assert f[other[i]] == fat[other[i]];
    }
  }

  /** The number of FAT_FREE entries of `s`. */
  function CountFree(s: seq<u16>): (n: nat)
    ensures n <= |s|
  {
    if s == [] then 0
    else CountFree(s[..|s| - 1]) + (if s[|s| - 1] == FAT_FREE then 1 else 0)
  }

  /** Setting a used entry free raises the count by one. */
  lemma {:induction false} CountFreeSetFree(s: seq<u16>, b: nat)
    requires b < |s| && s[b] != FAT_FREE
    ensures CountFree(s[b := FAT_FREE]) == CountFree(s) + 1
  {
    var t := s[b := FAT_FREE];
    var n := |s| - 1;
    assert t[..n] == if b < n then s[..n][b := FAT_FREE] else s[..n];
    if b < n {
      CountFreeSetFree(s[..n], b);
    }
  }

  lemma {:induction false} FreedStep(fat: seq<u16>, c: seq<nat>)
    requires c != [] && c[0] < |fat|
    requires forall i | 1 <= i < |c| :: c[i] != c[0]
    ensures Freed(fat, c) == Freed(fat[c[0] := FAT_FREE], c[1..])
  {
    var f := fat[c[0] := FAT_FREE];
    forall i | 0 <= i < |fat|
      ensures Freed(fat, c)[i] == Freed(f, c[1..])[i]
    {
      assert i in c <==> i == c[0] || i in c[1..];
    }
  }

  /**
   * Freeing a chain whose entries were all in use frees exactly as many
   * entries as the chain has blocks.
   */
  lemma {:induction false} CountFreeFreed(fat: seq<u16>, c: seq<nat>)
    requires forall i | 0 <= i < |c| :: c[i] < |fat| && fat[c[i]] != FAT_FREE
    requires forall i, j | 0 <= i < j < |c| :: c[i] != c[j]
    ensures CountFree(Freed(fat, c)) == CountFree(fat) + |c|
    decreases |c|
  {
    if c == [] {
      assert Freed(fat, c) == fat;
    } else {
      FreedStep(fat, c);
      var f := fat[c[0] := FAT_FREE];
      CountFreeSetFree(fat, c[0]);
      CountFreeFreed(f, c[1..]);
    }
  }

  /**
   * The entries of a chain are in use unless the chain links to data block 0:
   * a link to block 0 is the value FAT_FREE.
   */
  lemma ChainEntriesInUse(fat: seq<u16>, start: u16, bound: nat, c: seq<nat>)
    requires IsChain(fat, start, bound, c)
    requires forall i | 1 <= i < |c| :: c[i] != 0
    ensures forall i | 0 <= i < |c| :: fat[c[i]] != FAT_FREE
  {
    forall i | 0 <= i < |c|
      ensures fat[c[i]] != FAT_FREE
    {
      if i + 1 < |c| {
        assert c[i + 1] != 0;
      }
    }
  }

  /** Only the first `n` entries are counted by `fs_info`; freeing a chain below `n` stays below `n`. */
  lemma FreedPrefix(fat: seq<u16>, c: seq<nat>, n: nat)
    requires n <= |fat|
    requires forall i | 0 <= i < |c| :: c[i] < n
    ensures Freed(fat, c)[..n] == Freed(fat[..n], c)
  {
  }

  /** The FAT blocks that hold the entries of `c`. */
  function FatBlocksOf(c: seq<nat>): set<nat>
  {
    set b | b in c :: b / FAT_ENTRIES_PER_BLOCK
  }

  lemma FatBlocksOfSnoc(c: seq<nat>, b: nat)
    ensures FatBlocksOf(c + [b]) == FatBlocksOf(c) + {b / FAT_ENTRIES_PER_BLOCK}
  {
    var k := b / FAT_ENTRIES_PER_BLOCK;
    forall x | x in FatBlocksOf(c + [b])
      ensures x in FatBlocksOf(c) + {k}
    {
      var y :| y in c + [b] && x == y / FAT_ENTRIES_PER_BLOCK;
      if y != b {
        assert y in c;
      }
    }
    assert b in c + [b];
    forall y | y in c
      ensures y in c + [b]
    {
    }
  }

  /**
   * One step of the walk over chain `c` after its first `w` blocks were
   * freed: the entry of block c[w] still names the next block (or holds
   * FAT_EOC for the last one), and freeing it extends the freed prefix.
   */
  lemma ChainWalkStep(fat: seq<u16>, start: u16, bound: nat, c: seq<nat>, w: nat)
    requires IsChain(fat, start, bound, c) && w < |c|
    ensures Freed(fat, c[..w])[c[w]] == if w + 1 < |c| then c[w + 1] as u16 else FAT_EOC
    ensures Freed(fat, c[..w + 1]) == Freed(fat, c[..w])[c[w] := FAT_FREE]
    ensures FatBlocksOf(c[..w + 1]) == FatBlocksOf(c[..w]) + {c[w] / FAT_ENTRIES_PER_BLOCK}
  {
    assert c[w] !in c[..w];
    assert c[..w + 1] == c[..w] + [c[w]];
    FreedSnoc(fat, c[..w], c[w]);
    FatBlocksOfSnoc(c[..w], c[w]);
  }

  /**
   * `disk` after FAT block k of `fat` is written to disk block 1 + k, for
   * every k in `ks` whose block lies inside both the disk and the FAT. The
   * superblock and the blocks of FAT blocks outside `ks` are not written.
   */
  function FlushFat(disk: seq<Block>, fat: seq<u16>, ks: set<nat>): (d: seq<Block>)
    ensures |d| == |disk|
    ensures |disk| > 0 ==> d[0] == disk[0]
    ensures forall k: nat | k !in ks && 1 + k < |disk| :: d[1 + k] == disk[1 + k]
    ensures forall k | k in ks && 1 + k < |disk| && FAT_ENTRIES_PER_BLOCK * (k + 1) <= |fat| ::
      d[1 + k] == FatBlockBytes(fat, k)
  {
    seq(|disk|, i requires 0 <= i < |disk| => FlushedBlock(disk, fat, ks, i))
  }

  /** Disk block i once the FAT blocks of `ks` are written back. */
  function FlushedBlock(disk: seq<Block>, fat: seq<u16>, ks: set<nat>, i: nat): Block
    requires i < |disk|
  {
    if 1 <= i && i - 1 in ks && FAT_ENTRIES_PER_BLOCK * i <= |fat|
    then FatBlockBytes(fat, i - 1) else disk[i]
  }

  /**
   * Freeing entry b, which lies in FAT block k, and writing that block back
   * extends the set of written blocks by k: no other written block changes.
   */
  lemma FlushFatStep(disk: seq<Block>, fat: seq<u16>, ks: set<nat>, b: nat, k: nat)
    requires FAT_ENTRIES_PER_BLOCK * k <= b < FAT_ENTRIES_PER_BLOCK * (k + 1) <= |fat|
    requires 1 + k < |disk|
    ensures var f := fat[b := FAT_FREE];
            FlushFat(disk, f, ks + {k}) == FlushFat(disk, fat, ks)[1 + k := FatBlockBytes(f, k)]
  {
    var f := fat[b := FAT_FREE];
    var lhs := FlushFat(disk, f, ks + {k});
    var rhs := FlushFat(disk, fat, ks)[1 + k := FatBlockBytes(f, k)];
    forall i | 0 <= i < |disk|
      ensures lhs[i] == rhs[i]
    {
      FlushFatStepAt(disk, fat, ks, b, k, i);
    }
  }

  lemma FlushFatStepAt(disk: seq<Block>, fat: seq<u16>, ks: set<nat>, b: nat, k: nat, i: nat)
    requires FAT_ENTRIES_PER_BLOCK * k <= b < FAT_ENTRIES_PER_BLOCK * (k + 1) <= |fat|
    requires 1 + k < |disk| && i < |disk|
    ensures var f := fat[b := FAT_FREE];
            FlushFat(disk, f, ks + {k})[i] == FlushFat(disk, fat, ks)[1 + k := FatBlockBytes(f, k)][i]
  {
    var f := fat[b := FAT_FREE];
    assert FlushFat(disk, f, ks + {k})[i] == FlushedBlock(disk, f, ks + {k}, i);
    assert FlushFat(disk, fat, ks)[i] == FlushedBlock(disk, fat, ks, i);
    if i == 1 + k {
      assert FlushedBlock(disk, f, ks + {k}, i) == FatBlockBytes(f, k);
    } else if 1 <= i && i - 1 in ks && FAT_ENTRIES_PER_BLOCK * i <= |fat| {
      FatBlockBytesOther(fat, b, k, FAT_FREE, i - 1);
    }
  }

  /**
   * Once FAT block k is written back, disk block 1 + k holds entry
   * 2048 * k + r at entry offset r.
   */
  lemma FlushedEntryOnDisk(disk: seq<Block>, fat: seq<u16>, ks: set<nat>, k: nat, r: nat)
    requires FAT_ENTRIES_PER_BLOCK * (k + 1) <= |fat| && r < FAT_ENTRIES_PER_BLOCK
    requires k in ks && 1 + k < |disk|
    ensures DecodeU16s(FlushFat(disk, fat, ks)[1 + k])[r] == fat[FAT_ENTRIES_PER_BLOCK * k + r]
  {
    assert FlushFat(disk, fat, ks)[1 + k] == FatBlockBytes(fat, k);
    FatBlockBytesAt(fat, k, r);
  }

  /**
   * Freeing a chain that lies among the first `n` entries and whose links
   * after the first never name entry 0 (so no entry on it already holds
   * FAT_FREE) raises the free count of those `n` entries by the chain's
   * length; a file with no blocks changes nothing.
   */
  lemma FreeingRaisesFreeCount(fat: seq<u16>, start: u16, n: nat, c: seq<nat>)
    requires n <= |fat| && IsChain(fat, start, n, c)
    requires forall i | 1 <= i < |c| :: c[i] != 0
    ensures CountFree(Freed(fat, c)[..n]) == CountFree(fat[..n]) + |c|
  {
    ChainEntriesInUse(fat, start, n, c);
    FreedPrefix(fat, c, n);
    CountFreeFreed(fat[..n], c);
  }

  /**
   * After a chain is freed and the FAT blocks holding it are written back,
   * every entry of the chain reads FAT_FREE on disk: entry 2048 * k + r is
   * entry r of disk block 1 + k.
   */
  lemma FreedChainOnDisk(disk: seq<Block>, fat: seq<u16>, count: nat, start: u16, c: seq<nat>,
                         k: nat, r: nat)
    requires |fat| == FAT_ENTRIES_PER_BLOCK * count && count < |disk|
    requires IsChain(fat, start, |fat|, c)
    requires r < FAT_ENTRIES_PER_BLOCK && FAT_ENTRIES_PER_BLOCK * k + r in c
    ensures k < count
    ensures var d := FlushFat(disk, Freed(fat, c), FatBlocksOf(c));
            DecodeU16s(d[1 + k])[r] == FAT_FREE
  {
    var b := FAT_ENTRIES_PER_BLOCK * k + r;
    assert b < FAT_ENTRIES_PER_BLOCK * count;
    assert FAT_ENTRIES_PER_BLOCK * k < FAT_ENTRIES_PER_BLOCK * count;
    EntryInBlock(b, k);
    assert k in FatBlocksOf(c);
    assert Freed(fat, c)[b] == FAT_FREE;
    FlushedEntryOnDisk(disk, Freed(fat, c), FatBlocksOf(c), k, r);
  }

  /**
   * After freeing a chain and writing back the FAT blocks it touches, every
   * FAT block on disk holds the bytes of the freed FAT, provided the disk
   * held the old FAT before: a block the chain does not touch is unchanged.
   */
  lemma FlushFreedInSync(disk: seq<Block>, fat: seq<u16>, count: nat, c: seq<nat>, k: nat)
    requires |fat| == FAT_ENTRIES_PER_BLOCK * count && count < |disk| && k < count
    requires FatBlockBytes(fat, k) == disk[1 + k]
    ensures FlushFat(disk, Freed(fat, c), FatBlocksOf(c))[1 + k] == FatBlockBytes(Freed(fat, c), k)
  {
    var ks := FatBlocksOf(c);
    if k in ks {
      assert FlushFat(disk, Freed(fat, c), ks)[1 + k] == FatBlockBytes(Freed(fat, c), k);
    } else {
      OutsideFatBlocks(c, k);
      FreedUntouchedBlock(fat, c, k);
      assert FlushFat(disk, Freed(fat, c), ks)[1 + k] == disk[1 + k];
    }
  }

  /** A FAT block that holds no entry of `c` is not one of its FAT blocks' set. */
  lemma OutsideFatBlocks(c: seq<nat>, k: nat)
    requires k !in FatBlocksOf(c)
    ensures forall j | FAT_ENTRIES_PER_BLOCK * k <= j < FAT_ENTRIES_PER_BLOCK * (k + 1) :: j !in c
  {
    forall j | FAT_ENTRIES_PER_BLOCK * k <= j < FAT_ENTRIES_PER_BLOCK * (k + 1)
      ensures j !in c
    {
      EntryInBlock(j, k);
    }
  }

  /** Freeing a chain leaves the bytes of a FAT block holding none of its entries as they were. */
  lemma FreedUntouchedBlock(fat: seq<u16>, c: seq<nat>, k: nat)
    requires FAT_ENTRIES_PER_BLOCK * (k + 1) <= |fat|
    requires forall j | FAT_ENTRIES_PER_BLOCK * k <= j < FAT_ENTRIES_PER_BLOCK * (k + 1) :: j !in c
    ensures FatBlockBytes(Freed(fat, c), k) == FatBlockBytes(fat, k)
  {
    var lo := FAT_ENTRIES_PER_BLOCK * k;
    assert Freed(fat, c)[lo .. lo + FAT_ENTRIES_PER_BLOCK] == fat[lo .. lo + FAT_ENTRIES_PER_BLOCK];
  }
}
