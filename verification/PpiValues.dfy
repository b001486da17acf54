/** PPI descriptors and GUIDs as values, their printed form, and what the database
    does with them (UEFI PI 1.8, Volume I, section 4.2). */
module PpiValues {
  import opened Memory
  import opened Words
  import opened Guids
  import opened Volume
  import opened VolumeLaws
  import opened Ppi
  import opened PpiLaws

  datatype Descriptor = Descriptor(flags: Word, guid: Word, ppi: Word)

  /** Flags, GUID pointer, PPI pointer. */
  function PrintDescriptor(d: Descriptor): (p: seq<Byte>)
    ensures |p| == 12
  {
    Bytes(d.flags, 4) + Bytes(d.guid, 4) + Bytes(d.ppi, 4)
  }

  function PrintList(ds: seq<Descriptor>): (p: seq<Byte>)
    ensures |p| == 12 * |ds|
  {
    if ds == [] then [] else PrintDescriptor(ds[0]) + PrintList(ds[1..])
  }

  lemma DescriptorLies(m: Mem, a: int, d: Descriptor)
    ensures Lies(m, a, PrintDescriptor(d))
       <==> Read32(m, a) == d.flags && Read32(m, a + 4) == d.guid && Read32(m, a + 8) == d.ppi
  {
    hide Lies, Bytes, Read;
    Widths();
    LiesParts(m, a, Bytes(d.flags, 4) + Bytes(d.guid, 4), Bytes(d.ppi, 4));
    LiesParts(m, a, Bytes(d.flags, 4), Bytes(d.guid, 4));
    LiesNumber(m, a, d.flags, 4);
    LiesNumber(m, a + 4, d.guid, 4);
    LiesNumber(m, a + 8, d.ppi, 4);
  }

  /** Descriptor i of the list stands where it should. */
  ghost predicate DescriptorAt(m: Mem, list: int, ds: seq<Descriptor>, i: nat)
    requires i < |ds|
  {
    Lies(m, list + 12 * i, PrintDescriptor(ds[i]))
  }

  lemma {:induction false} ListLies(m: Mem, list: int, ds: seq<Descriptor>)
    ensures Lies(m, list, PrintList(ds)) <==> forall i: nat | i < |ds| :: DescriptorAt(m, list, ds, i)
    decreases |ds|
  {
    hide Lies, PrintDescriptor;
    if ds == [] {
      assert Lies(m, list, []) by { LiesNowhere(m, list); }
    } else {
      var rest, next := ds[1..], list + 12;
      LiesParts(m, list, PrintDescriptor(ds[0]), PrintList(rest));
      ListLies(m, next, rest);
      if forall i: nat | i < |ds| :: DescriptorAt(m, list, ds, i) {
        assert DescriptorAt(m, list, ds, 0);
        forall i: nat | i < |rest|
          ensures DescriptorAt(m, next, rest, i)
        {
          assert DescriptorAt(m, list, ds, i + 1);
        }
      }
      if Lies(m, list, PrintList(ds)) {
        forall i: nat | i < |ds|
          ensures DescriptorAt(m, list, ds, i)
        {
          if i > 0 {
            assert DescriptorAt(m, next, rest, i - 1);
          }
        }
      }
    }
  }

  lemma LiesNowhere(m: Mem, a: int)
    ensures Lies(m, a, [])
  {
  }

  /** Descriptor i as the install reads it. */
  lemma PrintedDescriptor(m: Mem, list: Word, ds: seq<Descriptor>, i: nat)
    requires i < |ds|
    ensures DescriptorAt(m, list, ds, i)
       <==> && Flags(m, list, i) == ds[i].flags
            && Pointer(m, list, i, GUID_FIELD) == ds[i].guid && Pointer(m, list, i, PPI_FIELD) == ds[i].ppi
  {
    hide Read, Ptr, Lies, PrintDescriptor;
    var a := list + 12 * i;
    DescriptorLies(m, a, ds[i]);
    SameNumber(m, a, 0, 4);
    SameNumber(m, a, 4, 4);
    SameNumber(m, a, 8, 4);
  }

  // ----- How an install ends, told by values -----

  /** A PPI, with a lookup that succeeds if it is position-independent. */
  predicate Good(d: Descriptor, lookup: Result) {
    Bit(d.flags, 0x10) && (Bit(d.flags, 0x1) ==> lookup.status == Success)
  }

  predicate Terminates(d: Descriptor) {
    Bit(d.flags, 0x8000_0000)
  }

  /** The first n are good and do not terminate the list. */
  predicate GoOn(ds: seq<Descriptor>, n: nat, lookup: Result)
    requires n <= |ds|
  {
    forall i | 0 <= i < n :: Good(ds[i], lookup) && !Terminates(ds[i])
  }

  /** ds are the descriptors that an install into a pool with room for `room` more
      looks at, and status is how it ends. */
  predicate EndsAs(ds: seq<Descriptor>, room: nat, lookup: Result, status: Status) {
    || (|ds| == room && GoOn(ds, room, lookup) && status == NotFound)
    || (&& 0 < |ds| <= room && GoOn(ds, |ds| - 1, lookup)
        && var last := ds[|ds| - 1];
           if !Bit(last.flags, 0x10) then status == InvalidParameter
           else if !Good(last, lookup) then status == lookup.status
           else Terminates(last) && status == Success)
  }

  /** How many of them are shifted and entered on the way. */
  function Entered(ds: seq<Descriptor>, lookup: Result): (n: nat)
    ensures n <= |ds|
  {
    if ds != [] && !Good(ds[|ds| - 1], lookup) then |ds| - 1 else |ds|
  }

  predicate PicUpTo(ds: seq<Descriptor>, i: nat)
    requires i < |ds|
  {
    exists j :: 0 <= j <= i && Bit(ds[j].flags, 0x1)
  }

  /** The shift of descriptor i. */
  function ShiftAt(ds: seq<Descriptor>, i: nat, lookup: Result): Word
    requires i < |ds|
  {
    if PicUpTo(ds, i) then lookup.section else 0
  }

  function ShiftedDescriptor(d: Descriptor, shift: Word): Descriptor {
    Descriptor(d.flags, Ptr(d.guid + shift), Ptr(d.ppi + shift))
  }

  /** The list with its first n descriptors shifted. */
  function ShiftedList(ds: seq<Descriptor>, n: nat, lookup: Result): (s: seq<Descriptor>)
    ensures |s| == |ds|
  {
    seq(|ds|, i requires 0 <= i < |ds| => if i < n then ShiftedDescriptor(ds[i], ShiftAt(ds, i, lookup)) else ds[i])
  }

  /** Where the entry of descriptor i's interface stands once it is shifted. */
  function EntryAt(ds: seq<Descriptor>, i: nat, lookup: Result): Word
    requires i < |ds|
  {
    Ptr(ds[i].ppi + ShiftAt(ds, i, lookup))
  }

  /** The word at e shares no byte with the len bytes at list. */
  predicate OffList(e: int, list: int, len: nat) {
    forall k: nat | k < len :: OffByte(e, list, k)
  }

  predicate OffByte(e: int, list: int, k: nat) {
    Ptr(list + k - e) >= 4
  }

  /** Descriptors that are shifted name entries off the list. */
  ghost predicate Clear(list: Word, ds: seq<Descriptor>, lookup: Result) {
    forall i: nat | i < Entered(ds, lookup) && ShiftAt(ds, i, lookup) != 0 ::
      12 * |ds| <= SPACE && OffList(EntryAt(ds, i, lookup), list, 12 * |ds|)
  }

  // ----- The two views agree -----

  lemma PrintedFlags(m: Mem, list: Word, ds: seq<Descriptor>, i: nat)
    requires i < |ds| && DescriptorAt(m, list, ds, i)
    ensures IsPpi(m, list, i) <==> Bit(ds[i].flags, 0x10)
    ensures IsPic(m, list, i) <==> Bit(ds[i].flags, 0x1)
    ensures IsLast(m, list, i) <==> Bit(ds[i].flags, 0x8000_0000)
  {
    hide Bit, Flags, Pointer, DescriptorAt;
    PrintedDescriptor(m, list, ds, i);
  }

  lemma PrintedShift(m: Mem, list: Word, ds: seq<Descriptor>, i: nat, lookup: Result)
    requires i < |ds| && forall j: nat | j < |ds| :: DescriptorAt(m, list, ds, j)
    ensures Shift(m, list, i, lookup) == ShiftAt(ds, i, lookup)
    ensures Entry(m, list, i, lookup) == EntryAt(ds, i, lookup)
  {
    hide Bit, IsPic, DescriptorAt, Ptr, Read32, Desc;
    forall j: nat | j <= i
      ensures IsPic(m, list, j) <==> Bit(ds[j].flags, 0x1)
    {
      PrintedFlags(m, list, ds, j);
    }
    if PicUpTo(ds, i) {
      var j :| 0 <= j <= i && Bit(ds[j].flags, 0x1);
      assert IsPic(m, list, j);
    }
    PrintedDescriptor(m, list, ds, i);
    assert Pointer(m, list, i, PPI_FIELD) == ds[i].ppi;
  }

  lemma PrintedGoOn(m: Mem, list: Word, ds: seq<Descriptor>, n: nat, lookup: Result)
    requires n <= |ds| && GoOn(ds, n, lookup) && forall j: nat | j < |ds| :: DescriptorAt(m, list, ds, j)
    ensures Continues(m, list, n, lookup)
  {
    hide Bit, IsPpi, IsPic, IsLast, DescriptorAt;
    forall i | 0 <= i < n
      ensures Acceptable(m, list, i, lookup) && !IsLast(m, list, i)
    {
      PrintedFlags(m, list, ds, i);
      assert Good(ds[i], lookup) && !Terminates(ds[i]);
    }
  }

  lemma PrintedEnds(m: Mem, list: Word, ds: seq<Descriptor>, room: nat, lookup: Result, status: Status)
    requires EndsAs(ds, room, lookup, status) && room > 0 && forall j: nat | j < |ds| :: DescriptorAt(m, list, ds, j)
    ensures Ends(m, list, room, lookup, Entered(ds, lookup), status)
    ensures Looked(room, Entered(ds, lookup), status) == |ds|
  {
    hide Bit, IsPpi, IsPic, IsLast, DescriptorAt, Continues, GoOn;
    PrintedFlags(m, list, ds, |ds| - 1);
    if |ds| == room && GoOn(ds, room, lookup) && status == NotFound {
      assert Good(ds[room - 1], lookup) by { LastGoesOn(ds, lookup); }
      PrintedGoOn(m, list, ds, room, lookup);
    } else {
      PrintedGoOn(m, list, ds, |ds| - 1, lookup);
    }
  }

  lemma LastGoesOn(ds: seq<Descriptor>, lookup: Result)
    requires ds != [] && GoOn(ds, |ds|, lookup)
    ensures Good(ds[|ds| - 1], lookup)
  {
  }

  lemma ApartFromBytes(e: Word, d: int)
    requires OffByte(e, d, 0) && OffByte(e, d, 1) && OffByte(e, d, 2) && OffByte(e, d, 3)
    ensures Apart(e, d)
  {
    var y := Ptr(e - d);
    PtrSum(e - d, d - e);
    PtrNear(0);
    hide Ptr;
    assert !OffByte(e, d, y);
  }

  lemma ApartWrapped(e: Word, a: int, c: nat)
    requires Apart(e, a + c)
    ensures Apart(e, Ptr(a) + c)
  {
    PtrIs(a);
    var q := a / SPACE;
    assert a == SPACE * q + Ptr(a);
    PtrPeriod(e - (a + c), q);
    PtrPeriod(a + c - e, -q);
  }

  lemma ClearSeparates(m: Mem, list: Word, ds: seq<Descriptor>, lookup: Result)
    requires Clear(list, ds, lookup) && forall j: nat | j < |ds| :: DescriptorAt(m, list, ds, j)
    ensures Separate(m, list, Entered(ds, lookup), |ds|, lookup)
  {
    hide Bit, DescriptorAt, Ptr, Shift, ShiftAt, EntryAt, Entry, Desc, OffList, Entered;
    var n := Entered(ds, lookup);
    forall i: nat, j: nat | i < n && j < |ds| && Moves(m, list, i, lookup)
      ensures ApartFromDesc(Entry(m, list, i, lookup), Desc(list, j))
    {
      PrintedShift(m, list, ds, i, lookup);
      OffListApart(EntryAt(ds, i, lookup), list, |ds|, j);
    }
    if n > 0 && Moves(m, list, n - 1, lookup) {
      PrintedShift(m, list, ds, n - 1, lookup);
    }
  }

  lemma OffListApart(e: Word, list: Word, n: nat, j: nat)
    requires j < n && OffList(e, list, 12 * n)
    ensures ApartFromDesc(e, Desc(list, j))
  {
    hide Ptr, Apart;
    var a := list + 12 * j;
    OffWord(e, list, 12 * n, 12 * j);
    OffWord(e, list, 12 * n, 12 * j + 4);
    OffWord(e, list, 12 * n, 12 * j + 8);
    ApartWrapped(e, a, 0);
    ApartWrapped(e, a, 4);
    ApartWrapped(e, a, 8);
  }

  lemma OffWord(e: Word, list: Word, len: nat, k: nat)
    requires k + 4 <= len && OffList(e, list, len)
    ensures Apart(e, list + k)
  {
    hide Ptr, Apart;
    assert OffByte(e, list, k) && OffByte(e, list, k + 1) && OffByte(e, list, k + 2) && OffByte(e, list, k + 3);
    ApartFromBytes(e, list + k);
  }

  // ----- Install -----

  /** A NULL list, and a full pool. */
  lemma RefusedAtOnce(db: Db, list: Word, lookup: Result)
    requires db.Valid()
    ensures list == 0 ==> Install(db, list, lookup) == Installed(db, InvalidParameter)
    ensures list != 0 && db.count == |db.pool| ==> Install(db, list, lookup) == Installed(db, NotFound)
  {
  }

  /** x is none of the len bytes from list on. */
  predicate OffBytes(list: Word, len: nat, x: Word) {
    forall k: nat | k < len :: NotByte(list, k, x)
  }

  predicate NotByte(list: Word, k: nat, x: Word) {
    Ptr(list + k) != x
  }

  /** A byte that the install has no business with: neither of the list nor of an
      entry that is shifted. */
  predicate Elsewhere(list: Word, ds: seq<Descriptor>, lookup: Result, x: Word) {
    && OffBytes(list, 12 * |ds|, x)
    && (forall i: nat | i < Entered(ds, lookup) && ShiftAt(ds, i, lookup) != 0 :: !Within(x, EntryAt(ds, i, lookup), 4))
  }

  /** No other shifted descriptor names the entry of descriptor k, or part of it. */
  predicate SoleNamer(ds: seq<Descriptor>, lookup: Result, k: nat)
    requires k < |ds|
  {
    forall j: nat | j < Entered(ds, lookup) && j != k && ShiftAt(ds, j, lookup) != 0 ::
      Apart(EntryAt(ds, j, lookup), EntryAt(ds, k, lookup))
  }

  /** A list of descriptors printed at `list`: the install ends as their flags say;
      afterwards the list with the pointers of those entered shifted is printed
      there; the entry at each shifted PPI pointer has been shifted too; and nothing
      else is changed. */
  lemma InstallPrinted(db: Db, list: Word, ds: seq<Descriptor>, lookup: Result, status: Status)
    requires db.Valid() && list != 0 && db.count < |db.pool| && Lies(db.mem, list, PrintList(ds))
    requires EndsAs(ds, |db.pool| - db.count, lookup, status) && Clear(list, ds, lookup)
    ensures var r, n := Install(db, list, lookup), Entered(ds, lookup);
            && r.status == status && r.db.Valid()
            && r.db.Entries() == db.Entries() + (if status == Success then Places(list, |ds|) else [])
            && Lies(r.db.mem, list, PrintList(ShiftedList(ds, n, lookup)))
            && (forall k: nat | k < n && ShiftAt(ds, k, lookup) != 0 && SoleNamer(ds, lookup, k) ::
                  EntryWord(db.mem, r.db.mem, ds, lookup, k))
            && (forall x: Word | Elsewhere(list, ds, lookup, x) :: r.db.mem[x] == db.mem[x])
  {
    hide Lies, PrintList, Install, EndsAs, Clear, ShiftAt, SoleNamer, Elsewhere, EntryWord, ShiftedList, Entered,
         Places, DescriptorAt;
    ListLies(db.mem, list, ds);
    InstalledEntries(db, list, ds, lookup, status);
    InstalledList(db, list, ds, lookup, status);
    InstalledWords(db, list, ds, lookup, status);
    InstalledFrame(db, list, ds, lookup, status);
  }

  /** Where the descriptors of a list stand. */
  function Places(list: Word, n: nat): (s: seq<Word>)
    ensures |s| == n
  {
    seq(n, i => Ptr(list + 12 * i))
  }

  /** The first word of the interface of descriptor k, shifted. */
  predicate EntryWord(m: Mem, m': Mem, ds: seq<Descriptor>, lookup: Result, k: nat)
    requires k < |ds|
  {
    var e := EntryAt(ds, k, lookup);
    Read(m', e, 4) == Ptr(Read(m, e, 4) + lookup.section)
  }

  lemma InstalledEntries(db: Db, list: Word, ds: seq<Descriptor>, lookup: Result, status: Status)
    requires db.Valid() && list != 0 && db.count < |db.pool|
    requires forall j: nat | j < |ds| :: DescriptorAt(db.mem, list, ds, j)
    requires EndsAs(ds, |db.pool| - db.count, lookup, status) && Clear(list, ds, lookup)
    ensures var r := Install(db, list, lookup);
            && r.status == status && r.db.Valid()
            && r.db.Entries() == db.Entries() + (if status == Success then Places(list, |ds|) else [])
  {
    hide Install, Ends, Looked, Separate, Shifted, Written, Ptr, EndsAs, Clear, Moves, Entry, EntryShifted,
         NamedWhole, DescriptorAt, Entered;
    var room := |db.pool| - db.count;
    PrintedEnds(db.mem, list, ds, room, lookup, status);
    ClearSeparates(db.mem, list, ds, lookup);
    InstallFollows(db, list, lookup, Entered(ds, lookup), status);
    if status == Success {
      SuccessEntersAll(ds, room, lookup);
      assert Descriptors(list, |ds|) == Places(list, |ds|);
    }
  }

  lemma InstalledWords(db: Db, list: Word, ds: seq<Descriptor>, lookup: Result, status: Status)
    requires db.Valid() && list != 0 && db.count < |db.pool|
    requires forall j: nat | j < |ds| :: DescriptorAt(db.mem, list, ds, j)
    requires EndsAs(ds, |db.pool| - db.count, lookup, status) && Clear(list, ds, lookup)
    ensures var r := Install(db, list, lookup);
            forall k: nat | k < Entered(ds, lookup) && ShiftAt(ds, k, lookup) != 0 && SoleNamer(ds, lookup, k) ::
              EntryWord(db.mem, r.db.mem, ds, lookup, k)
  {
    hide Install, Ends, Looked, Separate, Shifted, Written, Ptr, EndsAs, Clear, Moves, Entry, EntryShifted,
         NamedWhole, DescriptorAt, Entered, ShiftAt, EntryAt, SoleNamer, Read, Shift;
    var m, m' := db.mem, Install(db, list, lookup).db.mem;
    PrintedEnds(m, list, ds, |db.pool| - db.count, lookup, status);
    ClearSeparates(m, list, ds, lookup);
    InstallFollows(db, list, lookup, Entered(ds, lookup), status);
    forall k: nat | k < Entered(ds, lookup) && ShiftAt(ds, k, lookup) != 0 && SoleNamer(ds, lookup, k)
      ensures EntryWord(m, m', ds, lookup, k)
    {
      PrintedShift(m, list, ds, k, lookup);
      assert Moves(m, list, k, lookup) by { MovesMeans(m, list, k, lookup); }
      SoleEntry(m, m', list, ds, lookup, k);
    }
  }

  lemma InstalledFrame(db: Db, list: Word, ds: seq<Descriptor>, lookup: Result, status: Status)
    requires db.Valid() && list != 0 && db.count < |db.pool|
    requires forall j: nat | j < |ds| :: DescriptorAt(db.mem, list, ds, j)
    requires EndsAs(ds, |db.pool| - db.count, lookup, status) && Clear(list, ds, lookup)
    ensures forall x: Word | Elsewhere(list, ds, lookup, x) :: Install(db, list, lookup).db.mem[x] == db.mem[x]
  {
    hide Install, Ends, Looked, Separate, Shifted, Written, Ptr, EndsAs, Clear, Moves, Entry, EntryShifted,
         NamedWhole, DescriptorAt, Entered, Elsewhere;
    PrintedEnds(db.mem, list, ds, |db.pool| - db.count, lookup, status);
    ClearSeparates(db.mem, list, ds, lookup);
    InstallFollows(db, list, lookup, Entered(ds, lookup), status);
    forall x: Word | Elsewhere(list, ds, lookup, x)
      ensures Install(db, list, lookup).db.mem[x] == db.mem[x]
    {
      ElsewhereUnwritten(db.mem, list, ds, lookup, x);
    }
  }

  lemma SuccessEntersAll(ds: seq<Descriptor>, room: nat, lookup: Result)
    requires EndsAs(ds, room, lookup, Success) && room > 0
    ensures Entered(ds, lookup) == |ds|
  {
    hide Bit, GoOn;
  }

  /** The shifted list is printed in place of the old one. */
  lemma InstalledList(db: Db, list: Word, ds: seq<Descriptor>, lookup: Result, status: Status)
    requires db.Valid() && list != 0 && db.count < |db.pool|
             && forall j: nat | j < |ds| :: DescriptorAt(db.mem, list, ds, j)
    requires EndsAs(ds, |db.pool| - db.count, lookup, status) && Clear(list, ds, lookup)
    ensures Lies(Install(db, list, lookup).db.mem, list, PrintList(ShiftedList(ds, Entered(ds, lookup), lookup)))
  {
    hide Lies, PrintList, Install, Ends, Separate, Shifted, Ptr, Read, EndsAs, Clear, ShiftAt, Moves, DescriptorAt,
         Shift, Entered, Applied, Pointer, Desc, ShiftedDescriptor, Read32;
    var m, room, n := db.mem, |db.pool| - db.count, Entered(ds, lookup);
    PrintedEnds(m, list, ds, room, lookup, status);
    ClearSeparates(m, list, ds, lookup);
    InstallIsApplied(db, list, lookup, n, status);
    var m' := Install(db, list, lookup).db.mem;
    var s := ShiftedList(ds, n, lookup);
    ListLies(m', list, s);
    forall j: nat | j < |s|
      ensures DescriptorAt(m', list, s, j)
    {
      PrintedDescriptor(m, list, ds, j);
      PrintedDescriptor(m', list, s, j);
      PrintedShift(m, list, ds, j, lookup);
      ReadsFlags(m, list, j, n, n, |ds|, lookup);
      if j < n {
        AppliedShifts(m, list, n, n, |ds|, lookup);
        ShiftedPointers(m, m', list, j, lookup, n);
        ShiftedFields(ds[j], ShiftAt(ds, j, lookup));
      } else {
        LaterUnchanged(m, list, ds, j, lookup);
      }
    }
  }

  lemma ShiftedFields(d: Descriptor, shift: Word)
    ensures var s := ShiftedDescriptor(d, shift);
            s.flags == d.flags && s.guid == Ptr(d.guid + shift) && s.ppi == Ptr(d.ppi + shift)
  {
  }

  /** The pointers of a descriptor that is looked at and not entered. */
  lemma LaterUnchanged(m: Mem, list: Word, ds: seq<Descriptor>, j: nat, lookup: Result)
    requires Entered(ds, lookup) <= j < |ds| && Separate(m, list, Entered(ds, lookup), |ds|, lookup)
    ensures var m' := Applied(m, list, Entered(ds, lookup), lookup);
            && Pointer(m', list, j, GUID_FIELD) == Pointer(m, list, j, GUID_FIELD)
            && Pointer(m', list, j, PPI_FIELD) == Pointer(m, list, j, PPI_FIELD)
  {
    hide Entered, Separate;
    AppliedLater(m, list, Entered(ds, lookup), Entered(ds, lookup), |ds|, lookup, j);
  }

  lemma {:induction false} AppliedLater(m: Mem, list: Word, i: nat, n: nat, looked: nat, lookup: Result, j: nat)
    requires i <= n <= j < looked && Separate(m, list, n, looked, lookup)
    ensures var m' := Applied(m, list, i, lookup);
            && Pointer(m', list, j, GUID_FIELD) == Pointer(m, list, j, GUID_FIELD)
            && Pointer(m', list, j, PPI_FIELD) == Pointer(m, list, j, PPI_FIELD)
    decreases i
  {
    hide Read32, Ptr, Shift, Fixup, Apart, Desc, Shifted, Entry;
    if i > 0 {
      AppliedLater(m, list, i - 1, n, looked, lookup, j);
      AppliedShifts(m, list, i - 1, n, looked, lookup);
      var m', shift := Applied(m, list, i - 1, lookup), Shift(m, list, i - 1, lookup);
      var d, d' := Desc(list, i - 1), Desc(list, j);
      if shift == 0 {
        FixupByZero(m', d);
      } else {
        MovesLater(m, list, i - 1, n - 1, lookup);
        assert Shifted(m, m', list, i - 1, lookup, i - 1);
        EntryUnchangedPointer(m, m', list, i - 1, lookup);
        var e := Entry(m, list, i - 1, lookup);
        assert ApartFromDesc(e, d) && ApartFromDesc(e, d');
        DescsApart(list, i - 1, j, looked);
        FixupReads(m', d, shift, d' + GUID_FIELD);
        FixupReads(m', d, shift, d' + PPI_FIELD);
      }
    }
  }

  lemma SoleEntry(m: Mem, m': Mem, list: Word, ds: seq<Descriptor>, lookup: Result, k: nat)
    requires forall j: nat | j < |ds| :: DescriptorAt(m, list, ds, j)
    requires k < Entered(ds, lookup) && ShiftAt(ds, k, lookup) != 0 && SoleNamer(ds, lookup, k)
    requires var n, e := Entered(ds, lookup), Entry(m, list, k, lookup);
             NamedWhole(m, list, n, lookup, e) ==> EntryShifted(m, m', list, n, lookup, e)
    ensures Read(m', EntryAt(ds, k, lookup), 4) == Ptr(Read(m, EntryAt(ds, k, lookup), 4) + lookup.section)
  {
    hide DescriptorAt, Shift, ShiftAt, Entry, EntryAt, Ptr, Read, Entered, Namers, Apart;
    var n, e := Entered(ds, lookup), Entry(m, list, k, lookup);
    PrintedShift(m, list, ds, k, lookup);
    forall j: nat | j < n && Moves(m, list, j, lookup) && j != k
      ensures Apart(Entry(m, list, j, lookup), e) && Entry(m, list, j, lookup) != e
    {
      PrintedShift(m, list, ds, j, lookup);
      ApartDiffer(Entry(m, list, j, lookup), e);
    }
    OneNamer(m, list, n, lookup, k);
  }

  lemma ApartDiffer(a: Word, b: Word)
    requires Apart(a, b)
    ensures a != b
  {
    NoWraps(0);
  }

  lemma ElsewhereUnwritten(m: Mem, list: Word, ds: seq<Descriptor>, lookup: Result, x: Word)
    requires forall j: nat | j < |ds| :: DescriptorAt(m, list, ds, j)
    requires Elsewhere(list, ds, lookup, x)
    ensures !Written(m, list, Entered(ds, lookup), lookup, x)
  {
    hide DescriptorAt, Shift, ShiftAt, Entry, EntryAt, Ptr, Within, Entered;
    forall i: nat | i < Entered(ds, lookup) && Moves(m, list, i, lookup)
      ensures !WrittenBy(m, list, i, lookup, x)
    {
      PrintedShift(m, list, ds, i, lookup);
      if Within(x, Ptr(list + 12 * i) + 4, 4) {
        InWordOfList(list, |ds|, 12 * i, 4, x);
      }
      if Within(x, Ptr(list + 12 * i) + 8, 4) {
        InWordOfList(list, |ds|, 12 * i, 8, x);
      }
    }
  }

  lemma InWordOfList(list: Word, n: nat, at: nat, c: nat, x: Word)
    requires at + c + 4 <= 12 * n && Within(x, Ptr(list + at) + c, 4)
    ensures !OffBytes(list, 12 * n, x)
  {
    var a := Ptr(list + at) + c;
    var d: nat := Ptr(x - a);
    PtrSum(list + at, c);
    PtrSum(x - a, a);
    PtrSum(a, d);
    PtrSum(list + at + c, d);
    NoWraps(x);
    hide Ptr;
    var k := at + c + d;
    assert list + k == list + at + c + d;
    assert !NotByte(list, k, x);
  }

  // ----- Lookup -----

  /** Two GUIDs in memory match exactly if they are equal. */
  lemma SameGuidIsEquality(m: Mem, a: int, b: int, g: Guid, h: Guid)
    requires Lies(m, a, Image(g)) && Lies(m, b, Image(h))
    ensures SameGuid(m, a, b) <==> g == h
  {
    hide Lies, Image, Read, Value;
    GuidLies(m, a, g);
    GuidLies(m, b, h);
    CompareGuidsIsEquality(g, h);
  }

  lemma GuidLies(m: Mem, a: int, g: Guid)
    requires Lies(m, a, Image(g))
    ensures Read64(m, a) == Lo(g) && Read64(m, a + 8) == Hi(g)
  {
    hide Lies, Image, Read, Value;
    var s := Image(g);
    assert s == s[..8] + s[8..];
    LiesParts(m, a, s[..8], s[8..]);
    LiesValue(m, a, s[..8]);
    LiesValue(m, a + 8, s[8..]);
  }

  /** The entries are descriptors ds, and their GUID pointers lead to gs. */
  ghost predicate Database(m: Mem, entries: seq<Word>, ds: seq<Descriptor>, gs: seq<Guid>) {
    && |entries| == |ds| == |gs|
    && forall i: nat | i < |entries| :: InDatabase(m, entries[i], ds[i], gs[i])
  }

  ghost predicate InDatabase(m: Mem, entry: Word, d: Descriptor, g: Guid) {
    entry != 0 && Lies(m, entry, PrintDescriptor(d)) && Lies(m, d.guid, Image(g))
  }

  /** The positions before n at which a GUID stands. */
  function Hits(gs: seq<Guid>, want: Guid, n: nat): set<nat>
    requires n <= |gs|
  {
    set i: nat | i < n && gs[i] == want
  }

  lemma EntryMatches(m: Mem, entry: Word, d: Descriptor, g: Guid, guid: Word, want: Guid)
    requires InDatabase(m, entry, d, g) && Lies(m, guid, Image(want))
    ensures Matches(m, entry, guid) <==> g == want
    ensures Read32(m, entry + PPI_FIELD) == d.ppi
  {
    hide Lies, Image, PrintDescriptor, Read32, SameGuid;
    DescriptorLies(m, entry, d);
    SameGuidIsEquality(m, guid, d.guid, want, g);
  }

  /** PeiLocatePpi returns the interface of the k-th descriptor with the wanted GUID,
      counted from 0, and NOT_FOUND exactly if no more than k have it. */
  lemma LocateByValue(m: Mem, entries: seq<Word>, ds: seq<Descriptor>, gs: seq<Guid>, guid: Word, want: Guid, k: nat)
    requires Database(m, entries, ds, gs) && Lies(m, guid, Image(want))
    ensures var r := Locate(m, entries, guid, k);
            if k < |Hits(gs, want, |gs|)| then
              exists i: nat :: i < |gs| && gs[i] == want && |Hits(gs, want, i)| == k
                  && r == Located(Success, entries[i], ds[i].ppi)
            else r == Located(NotFound, 0, 0)
  {
    hide Lies, Image, InDatabase, Matches, Read32, Matching, PrintDescriptor;
    forall i: nat | i < |entries|
      ensures Matches(m, entries[i], guid) <==> gs[i] == want
      ensures Read32(m, entries[i] + PPI_FIELD) == ds[i].ppi
    {
      EntryMatches(m, entries[i], ds[i], gs[i], guid, want);
    }
    LocateFindsInstance(m, entries, guid, k);
    assert Positions(m, entries, guid) == Hits(gs, want, |gs|);
    if k < |Hits(gs, want, |gs|)| {
      var i: nat :| IsInstance(m, entries, guid, i, k) && entries[i] == Locate(m, entries, guid, k).descriptor;
      assert Positions(m, entries[..i], guid) == Hits(gs, want, i);
    }
  }

  // ----- Dispatch -----

  /** A descriptor is called through the first word of its interface. */
  lemma CallByValue(m: Mem, entry: Word, d: Descriptor)
    requires Lies(m, entry, PrintDescriptor(d))
    ensures CallOf(m, entry) == Call(entry, d.ppi, Read(m, d.ppi, 4))
  {
    hide Lies, PrintDescriptor, Read;
    DescriptorLies(m, entry, d);
  }

  lemma {:induction false} ActAllSplit(db: Db, before: seq<Action>, after: seq<Action>, fv: Word)
    requires db.Valid()
    ensures ActAll(db, before + after, fv) == ActAll(ActAll(db, before, fv), after, fv)
    decreases |after|
  {
    hide Act;
    if after == [] {
      assert before + after == before;
    } else {
      var n := |after| - 1;
      ActAllSplit(db, before, after[..n], fv);
      assert (before + after)[..|before| + n] == before + after[..n];
      assert (before + after)[|before| + n] == after[n];
    }
  }

  /** Call number at + j is of descriptor j of the list. */
  predicate CallsDescriptor(calls: seq<Call>, at: nat, list: Word, j: nat) {
    at + j < |calls| && calls[at + j].descriptor == Ptr(list + 12 * j)
  }

  predicate CallsList(calls: seq<Call>, at: nat, list: Word, n: nat) {
    forall j: nat | j < n :: CallsDescriptor(calls, at, list, j)
  }

  /** What an entry point installs while the dispatcher runs is called too: the
      descriptors of a list that is accepted are among the calls, in order, each at
      the place that it got in the database. */
  lemma InstalledIsCalled(db: Db, idx: nat, script: Script, fv: Word, before: seq<Action>, list: Word,
      after: seq<Action>)
    requires db.Valid() && idx < db.count && script(idx, db) == before + [InstallPpi(list)] + after
    ensures var mid := ActAll(db, before, fv);
            var r := Install(mid, list, Lookup(mid.mem, fv));
            && idx < mid.count <= r.db.count && (r.status == Success ==> mid.count < r.db.count)
            && CallsList(DispatchFrom(db, idx, script, fv).calls, mid.count - idx, list, r.db.count - mid.count)
  {
    hide Install, Lookup, Ptr, ActAll, DispatchFrom;
    var mid := ActAll(db, before, fv);
    var lookup := Lookup(mid.mem, fv);
    var r, all := Install(mid, list, lookup), ActAll(db, script(idx, db), fv);
    InstallAppends(mid, list, lookup);
    ActsAfter(db, before, list, after, fv);
    DispatchComplete(db, idx, script, fv);
    var final := DispatchFrom(db, idx, script, fv);
    DispatchKeeps(db, idx, script, fv);
    var at := mid.count - idx;
    forall j: nat | j < r.db.count - mid.count
      ensures CallsDescriptor(final.calls, at, list, j)
    {
      var i := mid.count + j;
      assert r.db.Entries()[i] == r.db.pool[i] == Ptr(list + DESCRIPTOR * (i - mid.count));
      assert all.Entries()[i] == r.db.Entries()[i];
      assert final.db.Entries()[i] == all.Entries()[i];
    }
  }

  /** The install is followed by what comes after it, which keeps its entries. */
  lemma ActsAfter(db: Db, before: seq<Action>, list: Word, after: seq<Action>, fv: Word)
    requires db.Valid()
    ensures var mid := ActAll(db, before, fv);
            var r, all := Install(mid, list, Lookup(mid.mem, fv)), ActAll(db, before + [InstallPpi(list)] + after, fv);
            r.db.Valid() && r.db.Entries() <= all.Entries()
  {
    hide Install, Lookup, ActAll;
    var mid := ActAll(db, before, fv);
    ActAllSplit(db, before, [InstallPpi(list)], fv);
    ActAllSplit(db, before + [InstallPpi(list)], after, fv);
    ActOne(mid, list, fv);
    InstallAppends(mid, list, Lookup(mid.mem, fv));
  }

  lemma DispatchKeeps(db: Db, idx: nat, script: Script, fv: Word)
    requires db.Valid() && idx < db.count
    ensures var final := DispatchFrom(db, idx, script, fv).db;
            final.Valid() && ActAll(db, script(idx, db), fv).Entries() <= final.Entries()
  {
    hide ActAll;
    DispatchComplete(db, idx, script, fv);
    DispatchComplete(ActAll(db, script(idx, db), fv), idx + 1, script, fv);
  }

  lemma ActOne(db: Db, list: Word, fv: Word)
    requires db.Valid()
    ensures ActAll(db, [InstallPpi(list)], fv) == Install(db, list, Lookup(db.mem, fv)).db
  {
    hide Install, Lookup;
    assert [InstallPpi(list)][..0] == [];
  }
}
