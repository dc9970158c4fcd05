/** Root-directory entries and 8.3 names (src/fat12.c). */
module Directory {
  import opened Bytes
  import opened Collections
  import opened Floppy

  const ENTRY_SIZE := 32
  const ENTRIES_PER_SECTOR := 16
  const NEVER_USED: byte := 0x00
  const DELETED: byte := 0xE5
  const ARCHIVE: byte := 0x20
  const SPACE: byte := 0x20
  const DOT: byte := 0x2E

  type RawEntry = e: seq<byte> | |e| == 32 witness seq(32, i => 0)

  type Name = n: seq<byte> | |n| == 11 witness seq(11, i => 0x20)

  /** A C string without its terminator. */
  type CString = s: seq<byte> | forall i :: 0 <= i < |s| ==> s[i] != 0

  // ----- Entries ---------------------------------------------------------

  function NameOf(e: RawEntry): Name { e[..11] }

  function FirstCluster(e: RawEntry): nat { Le16(e, 26) }

  function SizeOf(e: RawEntry): nat { Le32(e, 28) }

  predicate Live(e: RawEntry) {
    e[0] != NEVER_USED && e[0] != DELETED
  }

  /** fat12_update_size patches the last four bytes. */
  function WithSize(e: RawEntry, size: nat): (r: RawEntry)
    requires size < U32
    ensures SizeOf(r) == size && r[..28] == e[..28]
  {
    e[..28] + PutLe32(size)
  }

  lemma {:induction false} WithSizeKeeps(e: RawEntry, size: nat)
    requires size < U32
    ensures var r := WithSize(e, size);
            NameOf(r) == NameOf(e) && FirstCluster(r) == FirstCluster(e) && r[0] == e[0]
  {
    assert WithSize(e, size)[..11] == WithSize(e, size)[..28][..11] == e[..28][..11];
  }

  /** fat12_create overwrites these fields and leaves the time stamps of the
      slot's previous owner. */
  function NewEntry(e: RawEntry, name: Name, first: nat): (r: RawEntry)
    requires first < U16
    ensures NameOf(r) == name && FirstCluster(r) == first && SizeOf(r) == 0
    ensures r[11] == ARCHIVE && r[12] == 0 && r[20] == 0 && r[21] == 0
    ensures r[13..20] == e[13..20] && r[22..26] == e[22..26]
  {
    name + [ARCHIVE, 0] + e[13..20] + [0, 0] + e[22..26] + PutLe16(first) + [0, 0, 0, 0]
  }

  function AsDeleted(e: RawEntry): RawEntry {
    e[0 := DELETED]
  }

  // ----- The directory as a table ----------------------------------------

  function EntryIn(sector: Sector, idx: nat): RawEntry
    requires idx < ENTRIES_PER_SECTOR
  {
    sector[ENTRY_SIZE * idx..ENTRY_SIZE * idx + ENTRY_SIZE]
  }

  function Table(sectors: seq<Sector>): (dir: seq<RawEntry>)
    ensures |dir| == ENTRIES_PER_SECTOR * |sectors|
  {
    seq(ENTRIES_PER_SECTOR * |sectors|, k requires 0 <= k < ENTRIES_PER_SECTOR * |sectors| =>
      EntryIn(sectors[k / ENTRIES_PER_SECTOR], k % ENTRIES_PER_SECTOR))
  }

  /** The rows of the k-th sector. */
  lemma {:induction false} TableRows(sectors: seq<Sector>, k: nat)
    requires k < |sectors|
    ensures forall r | ENTRIES_PER_SECTOR * k <= r < ENTRIES_PER_SECTOR * (k + 1) ::
              Table(sectors)[r] == EntryIn(sectors[k], r - ENTRIES_PER_SECTOR * k)
  {
    forall r | ENTRIES_PER_SECTOR * k <= r < ENTRIES_PER_SECTOR * (k + 1)
      ensures r / ENTRIES_PER_SECTOR == k && r % ENTRIES_PER_SECTOR == r - ENTRIES_PER_SECTOR * k
    {
    }
  }

  lemma {:induction false} PatchOneEntry(sector: Sector, idx: nat, e: RawEntry, k: nat)
    requires idx < ENTRIES_PER_SECTOR && k < ENTRIES_PER_SECTOR
    ensures EntryIn(Splice(sector, ENTRY_SIZE * idx, e), k) == if k == idx then e else EntryIn(sector, k)
  {
  }

  /** Writing one entry back in its sector changes one row of the table. */
  lemma {:induction false} PatchTable(sectors: seq<Sector>, sector: nat, idx: nat, e: RawEntry)
    requires sector < |sectors| && idx < ENTRIES_PER_SECTOR
    ensures Table(sectors[sector := Splice(sectors[sector], ENTRY_SIZE * idx, e)])
         == Table(sectors)[ENTRIES_PER_SECTOR * sector + idx := e]
  {
    var patched := sectors[sector := Splice(sectors[sector], ENTRY_SIZE * idx, e)];
    forall k | 0 <= k < |Table(sectors)|
      ensures Table(patched)[k] == Table(sectors)[ENTRIES_PER_SECTOR * sector + idx := e][k]
    {
      PatchOneEntry(sectors[sector], idx, e, k % ENTRIES_PER_SECTOR);
    }
  }

  // ----- Searching -------------------------------------------------------

  /** The first matching entry before the end mark. fat12_update_size and
      fat12_delete skip deleted entries. fat12_open means to, but its test
      compares a signed char with 0xE5 and never fires. */
  function Lookup(dir: seq<RawEntry>, name: Name, skipDeleted: bool, from: nat): (r: Option<nat>)
    requires from <= |dir|
    ensures r.Some? ==> from <= r.value < |dir| && NameOf(dir[r.value]) == name
                        && dir[r.value][0] != NEVER_USED && (skipDeleted ==> Live(dir[r.value]))
    decreases |dir| - from
  {
    if from == |dir| || dir[from][0] == NEVER_USED then None
    else if skipDeleted && dir[from][0] == DELETED then Lookup(dir, name, skipDeleted, from + 1)
    else if NameOf(dir[from]) == name then Some(from)
    else Lookup(dir, name, skipDeleted, from + 1)
  }

  function FreeSlot(dir: seq<RawEntry>, from: nat): (r: Option<nat>)
    requires from <= |dir|
    ensures r.Some? ==> from <= r.value < |dir| && !Live(dir[r.value])
    ensures forall i | from <= i < |dir| && (r.Some? ==> i < r.value) :: Live(dir[i])
    decreases |dir| - from
  {
    if from == |dir| then None
    else if !Live(dir[from]) then Some(from)
    else FreeSlot(dir, from + 1)
  }

  /** The search for `name` goes on behind this entry. */
  predicate Passes(e: RawEntry, name: Name, skipDeleted: bool) {
    e[0] != NEVER_USED && ((skipDeleted && e[0] == DELETED) || NameOf(e) != name)
  }

  lemma {:induction false} LookupSkips(dir: seq<RawEntry>, name: Name, skipDeleted: bool, i: nat, j: nat)
    requires i <= j <= |dir| && forall r :: i <= r < j ==> Passes(dir[r], name, skipDeleted)
    ensures Lookup(dir, name, skipDeleted, i) == Lookup(dir, name, skipDeleted, j)
    ensures j == |dir| ==> Lookup(dir, name, skipDeleted, j) == None
    ensures j < |dir| && !Passes(dir[j], name, skipDeleted) ==>
              Lookup(dir, name, skipDeleted, j) == if dir[j][0] == NEVER_USED then None else Some(j)
    decreases j - i
  {
    if i < j {
      LookupSkips(dir, name, skipDeleted, i + 1, j);
    }
  }

  lemma {:induction false} FreeSlotSkips(dir: seq<RawEntry>, i: nat, j: nat)
    requires i <= j <= |dir| && forall r :: i <= r < j ==> Live(dir[r])
    ensures FreeSlot(dir, i) == FreeSlot(dir, j)
    ensures FreeSlot(dir, j) == if j == |dir| then None else if Live(dir[j]) then FreeSlot(dir, j + 1) else Some(j)
    decreases j - i
  {
    if i < j {
      FreeSlotSkips(dir, i + 1, j);
    }
  }

  /** The loop over the entries of one sector: the first one not passed. */
  method ScanFor(sector: Sector, name: Name, skipDeleted: bool) returns (idx: nat)
    ensures idx <= ENTRIES_PER_SECTOR
    ensures forall j | 0 <= j < idx :: Passes(EntryIn(sector, j), name, skipDeleted)
    ensures idx < ENTRIES_PER_SECTOR ==> !Passes(EntryIn(sector, idx), name, skipDeleted)
  {
    idx := 0;
    while idx < ENTRIES_PER_SECTOR && Passes(EntryIn(sector, idx), name, skipDeleted)
      invariant idx <= ENTRIES_PER_SECTOR
      invariant forall j | 0 <= j < idx :: Passes(EntryIn(sector, j), name, skipDeleted)
    {
      idx := idx + 1;
    }
  }

  method ScanForFree(sector: Sector) returns (idx: nat)
    ensures idx <= ENTRIES_PER_SECTOR
    ensures forall j | 0 <= j < idx :: Live(EntryIn(sector, j))
    ensures idx < ENTRIES_PER_SECTOR ==> !Live(EntryIn(sector, idx))
  {
    idx := 0;
    while idx < ENTRIES_PER_SECTOR && Live(EntryIn(sector, idx))
      invariant idx <= ENTRIES_PER_SECTOR
      invariant forall j | 0 <= j < idx :: Live(EntryIn(sector, j))
    {
      idx := idx + 1;
    }
  }

  /** What a lookup finds, said of the table as a whole. */
  ghost predicate IsFirstMatch(dir: seq<RawEntry>, name: Name, i: nat) {
    && i < |dir| && Live(dir[i]) && NameOf(dir[i]) == name
    && forall j :: 0 <= j < i ==> dir[j][0] != NEVER_USED && (Live(dir[j]) ==> NameOf(dir[j]) != name)
  }

  lemma {:induction false} LookupFinds(dir: seq<RawEntry>, name: Name, from: nat, i: nat)
    requires from <= i && IsFirstMatch(dir, name, i)
    ensures Lookup(dir, name, true, from) == Some(i)
    decreases i - from
  {
    if from < i {
      LookupFinds(dir, name, from + 1, i);
    }
  }

  lemma {:induction false} FoundIsFirstMatch(dir: seq<RawEntry>, name: Name, from: nat)
    requires from <= |dir| && Lookup(dir, name, true, from).Some?
    requires forall j :: 0 <= j < from ==> dir[j][0] != NEVER_USED && (Live(dir[j]) ==> NameOf(dir[j]) != name)
    ensures IsFirstMatch(dir, name, Lookup(dir, name, true, from).value)
    decreases |dir| - from
  {
    if dir[from][0] == DELETED || NameOf(dir[from]) != name {
      FoundIsFirstMatch(dir, name, from + 1);
    }
  }

  /** Everything behind the end mark is unused, as FAT requires. */
  ghost predicate EndClosed(dir: seq<RawEntry>) {
    forall i, j :: 0 <= i <= j < |dir| && dir[i][0] == NEVER_USED ==> dir[j][0] == NEVER_USED
  }

  /** With every entry after an end mark unused too, an absent name matches no
      live entry at all. */
  lemma {:induction false} NotFound(dir: seq<RawEntry>, name: Name, from: nat, i: nat)
    requires from <= i < |dir| && EndClosed(dir)
    requires Lookup(dir, name, true, from) == None
    ensures !(Live(dir[i]) && NameOf(dir[i]) == name)
    decreases i - from
  {
    if dir[from][0] != NEVER_USED && from < i {
      NotFound(dir, name, from + 1, i);
    }
  }

  /** Row i bears this name, deleted or not, and no end mark comes before it. */
  ghost predicate Answers(dir: seq<RawEntry>, name: Name, from: nat, i: nat) {
    from <= i < |dir| && NameOf(dir[i]) == name && forall j :: from <= j <= i ==> dir[j][0] != NEVER_USED
  }

  /** fat12_open finds something exactly when some row answers to the name. */
  lemma {:induction false} OpenFinds(dir: seq<RawEntry>, name: Name, from: nat)
    requires from <= |dir|
    ensures Lookup(dir, name, false, from) != None <==> exists i :: Answers(dir, name, from, i)
    decreases |dir| - from
  {
    if from < |dir| && dir[from][0] != NEVER_USED {
      var next := from + 1;
      OpenFinds(dir, name, next);
      if NameOf(dir[from]) == name {
        assert Answers(dir, name, from, from);
      } else if i :| Answers(dir, name, from, i) {
        assert Answers(dir, name, next, i);
      } else if i :| Answers(dir, name, next, i) {
        assert Answers(dir, name, from, i);
      }
    }
  }

  /** Names that do not begin with the deletion mark are looked up alike. */
  lemma {:induction false} SameLookup(dir: seq<RawEntry>, name: Name, from: nat)
    requires from <= |dir| && name[0] != DELETED
    ensures Lookup(dir, name, false, from) == Lookup(dir, name, true, from)
    decreases |dir| - from
  {
    if from < |dir| && dir[from][0] != NEVER_USED {
      assert NameOf(dir[from])[0] == dir[from][0];
      SameLookup(dir, name, from + 1);
    }
  }

  /** update_size and delete never find a name that begins with the deletion mark. */
  lemma {:induction false} MarkedNameNotFound(dir: seq<RawEntry>, name: Name, from: nat)
    requires from <= |dir| && name[0] == DELETED
    ensures Lookup(dir, name, true, from) == None
    decreases |dir| - from
  {
    if from < |dir| {
      assert NameOf(dir[from])[0] == dir[from][0];
      MarkedNameNotFound(dir, name, from + 1);
    }
  }

  /** fat12_open agrees with fat12_update_size and fat12_delete exactly when the
      name does not begin with the deletion mark, or no row before the end mark
      bears it. */
  lemma {:induction false} OpenAgrees(dir: seq<RawEntry>, name: Name)
    ensures Lookup(dir, name, false, 0) == Lookup(dir, name, true, 0)
       <==> (name[0] != DELETED || forall i :: !Answers(dir, name, 0, i))
  {
    if name[0] == DELETED {
      MarkedNameNotFound(dir, name, 0);
      OpenFinds(dir, name, 0);
    } else {
      SameLookup(dir, name, 0);
    }
  }

  /** The two part as soon as a file has been deleted: open finds its row under
      the name with the first character replaced by the mark. */
  lemma {:induction false} DeletedAnswers(dir: seq<RawEntry>, name: Name, i: nat)
    requires IsFirstMatch(dir, name, i)
    ensures var dir1, marked := dir[i := AsDeleted(dir[i])], name[0 := DELETED];
            Lookup(dir1, marked, false, 0) != None && Lookup(dir1, marked, true, 0) == None
  {
    var dir1, marked := dir[i := AsDeleted(dir[i])], name[0 := DELETED];
    assert NameOf(dir1[i]) == marked;
    assert Answers(dir1, marked, 0, i);
    OpenFinds(dir1, marked, 0);
    MarkedNameNotFound(dir1, marked, 0);
  }

  // ----- 8.3 names -------------------------------------------------------

  function Upper(c: byte): byte {
    if 0x61 <= c <= 0x7A then c - 32 else c
  }

  /** The 26 small letters become the capital ones, and nothing else changes. */
  lemma UpperLetters(c: byte)
    ensures if 'a' as int <= c <= 'z' as int then Upper(c) - 'A' as int == c - 'a' as int else Upper(c) == c
  {
  }

  /** The characters one name field takes: at most `room`, up to the end of the
      string or, for the stem, up to a dot. */
  function Field(s: CString, room: nat, dotEnds: bool): (f: CString)
    ensures |f| <= room && |f| <= |s|
    ensures forall i :: 0 <= i < |f| ==> f[i] == Upper(s[i])
  {
    if s == [] || room == 0 || (dotEnds && s[0] == DOT) then []
    else [Upper(s[0])] + Field(s[1..], room - 1, dotEnds)
  }

  function Pad(f: seq<byte>, width: nat): (r: seq<byte>)
    requires |f| <= width
    ensures |r| == width && r[..|f|] == f
    ensures forall i :: |f| <= i < width ==> r[i] == SPACE
  {
    f + seq(width - |f|, i => SPACE)
  }

  /** A stem longer than eight characters loses its extension: the dot is only
      looked for right after the characters that were taken. */
  function Name83(s: CString): (n: Name)
    ensures n[0] != NEVER_USED
  {
    var stem := Field(s, 8, true);
    var ext := if |stem| < |s| && s[|stem|] == DOT then Field(s[|stem| + 1..], 3, false) else [];
    Pad(stem, 8) + Pad(ext, 3)
  }

  /** The stem of a file name is what comes before the first dot, at most eight
      characters. */
  predicate IsStem(s: CString, k: nat) {
    && k <= 8 && k <= |s| && (forall i :: 0 <= i < k ==> s[i] != DOT)
    && (k == 8 || k == |s| || s[k] == DOT)
  }

  lemma {:induction false} FieldLength(s: CString, room: nat, dotEnds: bool, k: nat)
    requires k <= |s| && k <= room && (dotEnds ==> forall i :: 0 <= i < k ==> s[i] != DOT)
    requires k == room || k == |s| || (dotEnds && s[k] == DOT)
    ensures |Field(s, room, dotEnds)| == k
    decreases s
  {
    if k > 0 { FieldLength(s[1..], room - 1, dotEnds, k - 1); }
  }

  /** The 8.3 name by positions: the stem in upper case, spaces up to eight, up to
      three characters behind the dot in upper case, and spaces again. A dot that
      does not come right behind the stem starts no extension. */
  lemma {:induction false} NameAt(s: CString, k: nat)
    requires IsStem(s, k)
    ensures forall i :: 0 <= i < 8 ==> Name83(s)[i] == if i < k then Upper(s[i]) else SPACE
    ensures forall i :: 8 <= i < 11 ==>
      Name83(s)[i] == if k + (i - 7) < |s| && s[k] == DOT then Upper(s[k + (i - 7)]) else SPACE
  {
    hide Pad, Field;
    FieldLength(s, 8, true, k);
    if k < |s| && s[k] == DOT {
      var tail := s[k + 1..];
      FieldLength(tail, 3, false, Min(3, |tail|));
    }
  }

  /** A stem, a dot and an extension; what the extension has too much is cut off. */
  lemma {:induction false} StemAndExtension(stem: CString, ext: CString)
    requires 1 <= |stem| <= 8 && DOT !in stem
    ensures var s := stem + [DOT] + ext;
            && (forall i :: 0 <= i < 8 ==> Name83(s)[i] == if i < |stem| then Upper(stem[i]) else SPACE)
            && (forall i :: 8 <= i < 11 ==> Name83(s)[i] == if i - 8 < |ext| then Upper(ext[i - 8]) else SPACE)
  {
    hide Name83;
    var s := stem + [DOT] + ext;
    assert forall i :: 0 <= i < |stem| ==> s[i] == stem[i];
    assert s[|stem| + 1..] == ext;
    NameAt(s, |stem|);
  }

  /** A longer stem is cut off after eight characters, and the extension is lost. */
  lemma {:induction false} LongStem(s: CString)
    requires |s| >= 8 && (forall i :: 0 <= i < 8 ==> s[i] != DOT) && (|s| == 8 || s[8] != DOT)
    ensures forall i :: 0 <= i < 8 ==> Name83(s)[i] == Upper(s[i])
    ensures forall i :: 8 <= i < 11 ==> Name83(s)[i] == SPACE
  {
    hide Name83;
    NameAt(s, 8);
  }

  predicate SameUpper(s: seq<byte>, t: seq<byte>) {
    |s| == |t| && forall i :: 0 <= i < |s| ==> Upper(s[i]) == Upper(t[i])
  }

  /** A field without spaces can be read off its padded form. */
  lemma {:induction false} FieldsAgree(s: seq<byte>, t: seq<byte>, padded: seq<byte>)
    requires SPACE !in s && SPACE !in t && |s| <= |padded| && |t| <= |padded|
    requires forall i :: 0 <= i < |padded| ==> padded[i] == if i < |s| then Upper(s[i]) else SPACE
    requires forall i :: 0 <= i < |padded| ==> padded[i] == if i < |t| then Upper(t[i]) else SPACE
    ensures SameUpper(s, t)
  {
    assert forall i :: 0 <= i < |s| ==> s[i] in s && Upper(s[i]) != SPACE;
    assert forall i :: 0 <= i < |t| ==> t[i] in t && Upper(t[i]) != SPACE;
    assert |s| < |padded| ==> padded[|s|] == SPACE;
    assert |t| < |padded| ==> padded[|t|] == SPACE;
  }

  /** Two names of that form without spaces are one file exactly when they agree
      in upper case. */
  lemma {:induction false} NamesAgree(stem: CString, ext: CString, stem1: CString, ext1: CString)
    requires 1 <= |stem| <= 8 && 1 <= |stem1| <= 8 && DOT !in stem && DOT !in stem1 && |ext| <= 3 && |ext1| <= 3
    requires SPACE !in stem && SPACE !in stem1 && SPACE !in ext && SPACE !in ext1
    ensures Name83(stem + [DOT] + ext) == Name83(stem1 + [DOT] + ext1)
       <==> SameUpper(stem, stem1) && SameUpper(ext, ext1)
  {
    hide Name83;
    StemAndExtension(stem, ext);
    StemAndExtension(stem1, ext1);
    var n, n1 := Name83(stem + [DOT] + ext), Name83(stem1 + [DOT] + ext1);
    if n == n1 {
      FieldsAgree(stem, stem1, n[..8]);
      FieldsAgree(ext, ext1, n[8..]);
    } else if SameUpper(stem, stem1) && SameUpper(ext, ext1) {
      assert forall i :: 0 <= i < 11 ==> n[i] == n1[i];
    }
  }

  /** The next character of the field, while there is one. */
  lemma {:induction false} FieldGoesOn(all: CString, s: CString, j: nat, width: nat, dotEnds: bool)
    requires j < |s| && j < width && !(dotEnds && s[j] == DOT)
    requires j <= |all| && all[j..] == Field(s[j..], width - j, dotEnds)
    ensures j < |all| && all[j] == Upper(s[j]) && all[j + 1..] == Field(s[j + 1..], width - (j + 1), dotEnds)
  {
    assert s[j..][1..] == s[j + 1..];
    assert all[j..] == [Upper(s[j])] + Field(s[j + 1..], width - (j + 1), dotEnds);
    assert all[j] == all[j..][0] && all[j + 1..] == all[j..][1..];
  }

  lemma {:induction false} FieldEnds(all: CString, s: CString, j: nat, width: nat, dotEnds: bool)
    requires j <= |s| && j <= width && (j == |s| || j == width || (dotEnds && s[j] == DOT))
    requires j <= |all| && all[j..] == Field(s[j..], width - j, dotEnds)
    ensures j == |all| && all[..j] == all
  {
    assert all[j..] == [];
  }

  lemma {:induction false} PadStep(f: seq<byte>, j: nat, width: nat)
    requires j < |f| <= width
    ensures Pad(f[..j], width)[j := f[j]] == Pad(f[..j + 1], width)
  {
  }

  /** One of the two character loops that convert a name, shared in the source
      by open, create, delete and update_size. */
  method FillField(s: CString, width: nat, dotEnds: bool) returns (field: seq<byte>, j: nat)
    ensures j == |Field(s, width, dotEnds)| && field == Pad(Field(s, width, dotEnds), width)
  {
    hide Field, Pad;
    ghost var all := Field(s, width, dotEnds);
    field := Pad([], width);
    j := 0;
    assert all[0..] == all && all[..0] == [] && s[0..] == s;
    while j < |s| && !(dotEnds && s[j] == DOT) && j < width
      invariant j <= |all| <= width && j <= |s|
      invariant field == Pad(all[..j], width)
      invariant all[j..] == Field(s[j..], width - j, dotEnds)
    {
      FieldGoesOn(all, s, j, width, dotEnds);
      PadStep(all, j, width);
      field := field[j := Upper(s[j])];
      j := j + 1;
    }
    FieldEnds(all, s, j, width, dotEnds);
  }

  method ConvertName(s: CString) returns (name: Name)
    ensures name == Name83(s)
  {
    var stem, i := FillField(s, 8, true);
    var ext := Pad([], 3);
    if i < |s| && s[i] == DOT {
      var taken;
      ext, taken := FillField(s[i + 1..], 3, false);
    }
    name := stem + ext;
  }

  /** The conversion folds case: names that differ only in case are one file. */
  lemma {:induction false} FieldFoldsCase(s: CString, t: CString, room: nat, dotEnds: bool)
    requires |s| == |t| && forall i :: 0 <= i < |s| ==> Upper(s[i]) == Upper(t[i])
    ensures Field(s, room, dotEnds) == Field(t, room, dotEnds)
    decreases s
  {
    if s != [] && room > 0 && !(dotEnds && s[0] == DOT) {
      FieldFoldsCase(s[1..], t[1..], room - 1, dotEnds);
    }
  }

  lemma {:induction false} NamesFoldCase(s: CString, t: CString)
    requires |s| == |t| && forall i :: 0 <= i < |s| ==> Upper(s[i]) == Upper(t[i])
    ensures Name83(s) == Name83(t)
  {
    hide Field, Pad;
    FieldFoldsCase(s, t, 8, true);
    var n := |Field(s, 8, true)|;
    if n < |s| && s[n] == DOT {
      FieldFoldsCase(s[n + 1..], t[n + 1..], 3, false);
    }
  }
}
