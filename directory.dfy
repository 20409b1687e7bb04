/**
 * The root directory: file names as C strings in NUL-padded fields, the slot
 * searches of create and delete, the directory that each of them leaves, the
 * free-slot count of info and the listing of ls.
 */
module Directory {
  import opened Wrappers
  import opened Bytes
  import opened Layout

  /** A C string: bytes without NUL (its terminator is not part of it). */
  type CString = s: seq<u8> | forall i | 0 <= i < |s| :: s[i] != 0

  /**
   * The C string stored in a NUL-padded field: the bytes before the first
   * NUL, or the whole field when it holds no NUL.
   */
  function CStr(field: seq<u8>): (s: CString)
    ensures |s| <= |field| && s == field[..|s|]
    ensures |s| < |field| ==> field[|s|] == 0
  {
    if field == [] || field[0] == 0 then [] else [field[0]] + CStr(field[1..])
  }

  /** A field holding `s`, then NUL, then anything, stores the string `s`. */
  lemma CStrOfTerminated(s: CString, field: seq<u8>)
    requires |s| < |field| && field[..|s|] == s && field[|s|] == 0
    ensures CStr(field) == s
  {
  }

  /** A slot is free when its name starts with NUL, that is, holds the empty string. */
  predicate IsFree(e: Slot)
    ensures IsFree(e) <==> CStr(e.fileName) == []
  {
    e.fileName[0] == 0
  }

  /** The first slot whose name equals `name`, as `strcmp` compares them. */
  function FindSlot(root: seq<Slot>, name: seq<u8>): (r: Option<nat>)
    ensures r.Some? ==> r.value < |root| && CStr(root[r.value].fileName) == name
    ensures r.Some? ==> forall j | 0 <= j < r.value :: CStr(root[j].fileName) != name
    ensures r.None? ==> forall j | 0 <= j < |root| :: CStr(root[j].fileName) != name
  {
    if root == [] then None
    else if CStr(root[0].fileName) == name then Some(0)
    else match FindSlot(root[1..], name)
      case None => None
      case Some(k) => Some(k + 1)
  }

  /** The lowest-indexed free slot. */
  function FirstFree(root: seq<Slot>): (r: Option<nat>)
    ensures r.Some? ==> r.value < |root| && IsFree(root[r.value])
    ensures r.Some? ==> forall j | 0 <= j < r.value :: !IsFree(root[j])
    ensures r.None? ==> forall j | 0 <= j < |root| :: !IsFree(root[j])
  {
    if root == [] then None
    else if IsFree(root[0]) then Some(0)
    else match FirstFree(root[1..])
      case None => None
      case Some(k) => Some(k + 1)
  }

  /**
   * The slot `fs_create` claims for `filename`, or None when it returns -1:
   * a NULL or too long name, a name equal to some slot's name (free slots
   * included), or no free slot.
   */
  function CreateSlot(root: seq<Slot>, filename: Option<CString>): (r: Option<nat>)
    ensures r.Some? <==>
      && filename.Some? && |filename.value| < MAX_FILENAME
      && (forall j | 0 <= j < |root| :: CStr(root[j].fileName) != filename.value)
      && (exists j | 0 <= j < |root| :: IsFree(root[j]))
    ensures r.Some? ==> r.value < |root| && IsFree(root[r.value])
    ensures r.Some? ==> forall j | 0 <= j < r.value :: !IsFree(root[j])
  {
    if filename.None? || |filename.value| >= MAX_FILENAME then None
    else if FindSlot(root, filename.value).Some? then None
    else FirstFree(root)
  }

  /**
   * A free slot after `strcpy` of `name` into its name field, size 0 and no
   * blocks; the name bytes after the terminator and the padding keep their
   * old contents.
   */
  function Claim(e: Slot, name: CString): (r: Slot)
    requires |name| < MAX_FILENAME
    ensures CStr(r.fileName) == name
    ensures r.fileName[|name| + 1..] == e.fileName[|name| + 1..]
    ensures r.fileSize == 0 && r.firstDataBlock == NO_BLOCKS && r.padding == e.padding
  {
    var field := name + [0] + e.fileName[|name| + 1..];
    assert field[..|name|] == name;
    CStrOfTerminated(name, field);
    RootEntry(field, 0, NO_BLOCKS, e.padding)
  }

  /**
   * The directory after `fs_create(filename)`, or None when it fails: only
   * the claimed free slot changes, and it then holds the name, size 0 and
   * no blocks.
   */
  function Created(root: seq<Slot>, filename: Option<CString>): (r: Option<seq<Slot>>)
    ensures r.Some? <==> CreateSlot(root, filename).Some?
    ensures r.Some? ==>
      var k := CreateSlot(root, filename).value;
      && |r.value| == |root|
      && (forall j | 0 <= j < |root| && j != k :: r.value[j] == root[j])
      && IsFree(root[k]) && !IsFree(r.value[k])
      && CStr(r.value[k].fileName) == filename.value
      && r.value[k].fileSize == 0 && r.value[k].firstDataBlock == NO_BLOCKS
  {
    match CreateSlot(root, filename)
    case None => None
    case Some(k) => Some(root[k := Claim(root[k], filename.value)])
  }

  /**
   * The slot `fs_delete` clears for `filename`, or None when it returns -1:
   * a NULL, empty or too long name, or a name no slot has.
   */
  function DeleteSlot(root: seq<Slot>, filename: Option<CString>): (r: Option<nat>)
    ensures r.Some? ==> filename.Some? && 0 < |filename.value| < MAX_FILENAME
    ensures r.Some? ==> r.value < |root| && !IsFree(root[r.value])
    ensures r.Some? ==>
      && CStr(root[r.value].fileName) == filename.value
      && forall j | 0 <= j < r.value :: CStr(root[j].fileName) != filename.value
    ensures r.None? <==>
      || filename.None? || |filename.value| == 0 || |filename.value| >= MAX_FILENAME
      || forall j | 0 <= j < |root| :: CStr(root[j].fileName) != filename.value
  {
    if filename.None? || |filename.value| == 0 || |filename.value| >= MAX_FILENAME then None
    else FindSlot(root, filename.value)
  }

  /** The number of free slots. */
  function CountFreeSlots(root: seq<Slot>): (n: nat)
    ensures n <= |root|
  {
    if root == [] then 0
    else CountFreeSlots(root[..|root| - 1]) + (if IsFree(root[|root| - 1]) then 1 else 0)
  }

  /** Replacing one slot changes the count only by the free-ness of the two slots. */
  lemma {:induction false} CountFreeSlotsUpdate(root: seq<Slot>, k: nat, e: Slot)
    requires k < |root|
    ensures CountFreeSlots(root[k := e]) + (if IsFree(root[k]) then 1 else 0)
         == CountFreeSlots(root) + (if IsFree(e) then 1 else 0)
  {
    var n := |root| - 1;
    var r := root[k := e];
    if k < n {
      assert r[..n] == root[..n][k := e];
      CountFreeSlotsUpdate(root[..n], k, e);
    } else {
      assert r[..n] == root[..n];
    }
  }

  /** The names of the non-free slots are pairwise different. */
  ghost predicate NamesUnique(root: seq<Slot>)
  {
    forall i, j | 0 <= i < j < |root| && !IsFree(root[i]) ::
      CStr(root[i].fileName) != CStr(root[j].fileName)
  }

  /** The empty name is always refused: it equals the name of a free slot, or no slot is free. */
  lemma CreateRejectsEmptyName(root: seq<Slot>)
    ensures CreateSlot(root, Some([])) == None
  {
    var k := FirstFree(root);
    if k.Some? {
      assert CStr(root[k.value].fileName) == [];
    }
  }

  /**
   * After a successful create the name is found in the claimed slot, a
   * second create of the same name fails, one free slot fewer remains, and
   * names stay unique.
   */
  lemma CreateEffects(root: seq<Slot>, filename: Option<CString>)
    requires Created(root, filename).Some?
    ensures var k := CreateSlot(root, filename).value;
            var r := Created(root, filename).value;
            && FindSlot(r, filename.value) == Some(k)
            && Created(r, filename).None?
            && CountFreeSlots(r) + 1 == CountFreeSlots(root)
            && (NamesUnique(root) ==> NamesUnique(r))
  {
    var name := filename.value;
    var k := CreateSlot(root, filename).value;
    var r := Created(root, filename).value;
    assert CStr(r[k].fileName) == name;
    assert forall j | 0 <= j < k :: r[j] == root[j];
    assert FindSlot(r, name) == Some(k);
    CountFreeSlotsUpdate(root, k, r[k]);
    assert r == root[k := r[k]];
    if NamesUnique(root) {
      forall i, j | 0 <= i < j < |r| && !IsFree(r[i])
        ensures CStr(r[i].fileName) != CStr(r[j].fileName)
      {
        if i == k {
          assert CStr(r[j].fileName) == CStr(root[j].fileName);
        } else if j == k {
          assert CStr(r[i].fileName) == CStr(root[i].fileName);
        }
      }
    }
  }

  /**
   * Clearing the slot delete found frees one more slot and keeps names
   * unique; with unique names the deleted name is then found nowhere.
   */
  lemma DeleteEffects(root: seq<Slot>, filename: Option<CString>)
    requires DeleteSlot(root, filename).Some?
    ensures var k := DeleteSlot(root, filename).value;
            var r := root[k := ZERO_ENTRY];
            && CountFreeSlots(r) == CountFreeSlots(root) + 1
            && (NamesUnique(root) ==> NamesUnique(r) && FindSlot(r, filename.value).None?)
  {
    var k := DeleteSlot(root, filename).value;
    var r := root[k := ZERO_ENTRY];
    assert IsFree(ZERO_ENTRY);
    CountFreeSlotsUpdate(root, k, ZERO_ENTRY);
    if NamesUnique(root) {
      assert CStr(ZERO_ENTRY.fileName) == [];
      forall j | 0 <= j < |r|
        ensures CStr(r[j].fileName) != filename.value
      {
        if j < k {
          assert r[j] == root[j];
        } else if k < j {
          assert CStr(root[k].fileName) != CStr(root[j].fileName);
        }
      }
    }
  }

  /** What `fs_ls` reports for one slot. */
  datatype FileStat = FileStat(name: CString, size: u32, firstDataBlock: u16)

  function Stat(e: Slot): FileStat
  {
    FileStat(CStr(e.fileName), e.fileSize, e.firstDataBlock)
  }

  /** The indices of the non-free slots, ascending. */
  function ListedSlots(root: seq<Slot>): (ks: seq<nat>)
    ensures forall i | 0 <= i < |ks| :: ks[i] < |root| && !IsFree(root[ks[i]])
    ensures forall i, j | 0 <= i < j < |ks| :: ks[i] < ks[j]
  {
    if root == [] then []
    else
      var n := |root| - 1;
      var prev := ListedSlots(root[..n]);
      assert forall k | 0 <= k < n :: root[..n][k] == root[k];
      if IsFree(root[n]) then prev else prev + [n]
  }

  /** Every non-free slot is listed, so the listed and the free slots make up the directory. */
  lemma {:induction false} ListedSlotsComplete(root: seq<Slot>)
    ensures forall k | 0 <= k < |root| && !IsFree(root[k]) :: k in ListedSlots(root)
    ensures |ListedSlots(root)| + CountFreeSlots(root) == |root|
  {
    if root != [] {
      var n := |root| - 1;
      var prev := root[..n];
      ListedSlotsComplete(prev);
      forall k | 0 <= k < |root| && !IsFree(root[k])
        ensures k in ListedSlots(root)
      {
        if k < n {
          assert prev[k] == root[k];
        }
      }
    }
  }

  /** The records `fs_ls` reports, in ascending slot order. */
  function Listing(root: seq<Slot>): (ls: seq<FileStat>)
    ensures |ls| == |ListedSlots(root)|
    ensures forall i | 0 <= i < |ls| :: ls[i] == Stat(root[ListedSlots(root)[i]])
  {
    if root == [] then []
    else
      var n := |root| - 1;
      var prev := Listing(root[..n]);
      if IsFree(root[n]) then prev else prev + [Stat(root[n])]
  }

  /** After a successful create, ls reports the new file with size 0 and no blocks. */
  lemma CreateThenListed(root: seq<Slot>, filename: Option<CString>)
    requires Created(root, filename).Some?
    ensures FileStat(filename.value, 0, NO_BLOCKS) in Listing(Created(root, filename).value)
  {
    var k := CreateSlot(root, filename).value;
    var r := Created(root, filename).value;
    CreateRejectsEmptyName(root);
    assert !IsFree(r[k]) by {
      assert CStr(r[k].fileName) == filename.value;
    }
    var ks := ListedSlots(r);
    ListedSlotsComplete(r);
    var i :| 0 <= i < |ks| && ks[i] == k;
    assert Listing(r)[i] == FileStat(filename.value, 0, NO_BLOCKS);
  }
}
