/**
 * The three global pointers behind the mounted state (superblock, FAT and
 * root directory) and what `fs_mount` leaves in them when it fails. Every
 * other operation decides that a volume is mounted by testing that all three
 * are non-NULL.
 */
module MountLifecycle {
  import opened Wrappers
  import opened Bytes
  import opened Layout
  import opened FileSystem

  /** A global pointer: NULL, pointing at live memory, or at memory already freed. */
  datatype Ptr = Null | Live | Dangling

  datatype Globals = Globals(superBlock: Ptr, fatEntries: Ptr, rootEntries: Ptr)

  /** The globals before the first mount and after an umount. */
  const UNMOUNTED: Globals := Globals(Null, Null, Null)

  /** The test at the head of umount, info, create, delete and ls. */
  predicate LooksMounted(g: Globals)
  {
    g.superBlock != Null && g.fatEntries != Null && g.rootEntries != Null
  }

  predicate NoDangling(g: Globals)
  {
    g.superBlock != Dangling && g.fatEntries != Dangling && g.rootEntries != Dangling
  }

  /**
   * `fs_mount` as written: each failure path after the superblock is
   * allocated frees what was allocated so far but leaves the pointers set.
   */
  function MountAsWritten(g: Globals, stage: MountStage): (r: (int, Globals))
    ensures r.0 == 0 <==> stage == Mounted
    ensures stage == Mounted ==> NoDangling(r.1) && LooksMounted(r.1)
    ensures stage != OpenFailed && stage != Mounted ==> r.1.superBlock == Dangling
  {
    match stage
    case OpenFailed => (-1, g)
    case SuperBlockUnreadable => (-1, g.(superBlock := Dangling))
    case BadSignature => (-1, g.(superBlock := Dangling))
    case WrongBlockCount => (-1, g.(superBlock := Dangling))
    case FatUnreadable => (-1, g.(superBlock := Dangling, fatEntries := Dangling))
    case RootUnreadable => (-1, Globals(Dangling, Dangling, Dangling))
    case Mounted => (0, Globals(Live, Live, Live))
  }

  /**
   * `fs_mount` as evidently intended, and as `FileSystem.Mount` behaves: a
   * failure after the disk is open leaves nothing mounted.
   */
  function MountCorrected(g: Globals, stage: MountStage): (r: (int, Globals))
    ensures r.0 == 0 <==> stage == Mounted
    ensures NoDangling(g) ==> NoDangling(r.1)
    ensures stage != OpenFailed && stage != Mounted ==> !LooksMounted(r.1)
    ensures stage == Mounted ==> LooksMounted(r.1) && NoDangling(r.1)
    ensures stage == OpenFailed ==> r.1 == g
  {
    match stage
    case OpenFailed => (-1, g)
    case Mounted => (0, Globals(Live, Live, Live))
    case _ => (-1, UNMOUNTED)
  }

  /** `fs_umount`: refuses when the globals do not look mounted, else sets all three to NULL. */
  function UmountGlobals(g: Globals): (r: (int, Globals))
    ensures r.0 == 0 <==> LooksMounted(g)
    ensures !LooksMounted(r.1) && NoDangling(r.1) == (r.0 == 0 || NoDangling(g))
    ensures r.1 == if r.0 == 0 then UNMOUNTED else g
  {
    if LooksMounted(g) then (0, UNMOUNTED) else (-1, g)
  }

  datatype Event = MountEvent(stage: MountStage) | UmountEvent

  function RunAsWritten(g: Globals, evs: seq<Event>): Globals
    decreases |evs|
  {
    if evs == [] then g
    else
      var next := match evs[0]
        case MountEvent(stage) => MountAsWritten(g, stage).1
        case UmountEvent => UmountGlobals(g).1;
      RunAsWritten(next, evs[1..])
  }

  function RunCorrected(g: Globals, evs: seq<Event>): Globals
    decreases |evs|
  {
    if evs == [] then g
    else
      var next := match evs[0]
        case MountEvent(stage) => MountCorrected(g, stage).1
        case UmountEvent => UmountGlobals(g).1;
      RunCorrected(next, evs[1..])
  }

  /**
   * With the corrected mount, whatever sequence of mounts and umounts runs
   * from a state without dangling pointers, no global ever points at freed
   * memory: when the globals look mounted, all three point at live memory.
   */
  lemma {:induction false} CorrectedNeverDangles(g: Globals, evs: seq<Event>)
    requires NoDangling(g)
    ensures NoDangling(RunCorrected(g, evs))
    decreases |evs|
  {
    if evs != [] {
      var next := match evs[0]
        case MountEvent(stage) => MountCorrected(g, stage).1
        case UmountEvent => UmountGlobals(g).1;
      CorrectedNeverDangles(next, evs[1..]);
    }
  }

  /** A three-block image with one FAT block whose superblock names root directory block 9. */
  function RootPastEndImage(): seq<Block>
  {
    var zero: Block := Zeros(BLOCK_SIZE);
    [EncodeSuperBlock(SuperBlock(SIGNATURE, 3, 9, 0, 0, 1)), zero, zero]
  }

  /** Mounting that image passes every check up to the read of the root directory block. */
  lemma RootPastEndStage()
    ensures StageOf(Some(RootPastEndImage())) == RootUnreadable
  {
    RootPastEndSuperBlock();
  }

  /** Block 0 of that image reads back as the superblock it was laid out from. */
  lemma RootPastEndSuperBlock()
    ensures ParseSuperBlock(RootPastEndImage()[0]) == SuperBlock(SIGNATURE, 3, 9, 0, 0, 1)
  {
    SuperBlockRoundTrip(SuperBlock(SIGNATURE, 3, 9, 0, 0, 1));
  }

  /**
   * As written, mounting that image from the initial state returns -1 yet
   * leaves globals that pass the mounted test while pointing at freed memory:
   * a following info, create, delete, ls or umount dereferences or frees
   * them again.
   */
  lemma DanglingAfterFailedMount()
    ensures StageOf(Some(RootPastEndImage())) == RootUnreadable
    ensures var r := MountAsWritten(UNMOUNTED, StageOf(Some(RootPastEndImage())));
            r.0 == -1 && LooksMounted(r.1) && !NoDangling(r.1)
    ensures var g := RunAsWritten(UNMOUNTED, [MountEvent(RootUnreadable)]);
            LooksMounted(g) && !NoDangling(g)
  {
    assert RunAsWritten(UNMOUNTED, [MountEvent(RootUnreadable)])
        == RunAsWritten(Globals(Dangling, Dangling, Dangling), []);
    RootPastEndStage();
  }

  /** The same image under the corrected mount leaves nothing that looks mounted. */
  lemma CorrectedAfterFailedMount()
    ensures var r := MountCorrected(UNMOUNTED, StageOf(Some(RootPastEndImage())));
            r.0 == -1 && !LooksMounted(r.1) && NoDangling(r.1)
  {
    RootPastEndStage();
  }
}
