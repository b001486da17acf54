/** What a list of descriptors gets from an install, told from memory as it is
    before the call. */
module PpiLaws {
  import opened Memory
  import opened Words
  import opened Volume
  import opened Ppi

  // ----- The list before the call -----

  /** Descriptor i of a list, which may go on at address 0. */
  function Desc(list: Word, i: nat): Word {
    Ptr(list + DESCRIPTOR * i)
  }

  lemma DescNext(list: Word, i: nat)
    ensures Ptr(Desc(list, i) + DESCRIPTOR) == Desc(list, i + 1)
  {
    PtrSum(list + DESCRIPTOR * i, DESCRIPTOR);
  }

  function Flags(m: Mem, list: Word, i: nat): Word {
    Read32(m, Desc(list, i))
  }

  predicate IsPpi(m: Mem, list: Word, i: nat) {
    Bit(Flags(m, list, i), FLAG_PPI)
  }

  predicate IsPic(m: Mem, list: Word, i: nat) {
    Bit(Flags(m, list, i), FLAG_PIC)
  }

  predicate IsLast(m: Mem, list: Word, i: nat) {
    Bit(Flags(m, list, i), FLAG_TERMINATE_LIST)
  }

  /** Some descriptor before number n is position-independent. */
  predicate PicBefore(m: Mem, list: Word, n: nat) {
    exists i | 0 <= i < n :: IsPic(m, list, i)
  }

  /** The shift of descriptor i: none before the first position-independent one,
      the answer of CalcPeimFixup from it on. */
  function Shift(m: Mem, list: Word, i: nat, lookup: Result): Word {
    if PicBefore(m, list, i + 1) then lookup.section else 0
  }

  /** Where the entry of descriptor i's interface stands once it is shifted. */
  function Entry(m: Mem, list: Word, i: nat, lookup: Result): Word {
    Ptr(Read32(m, Desc(list, i) + PPI_FIELD) + Shift(m, list, i, lookup))
  }

  /** Descriptor i raises no objection: it is a PPI, and the lookup that it or an
      earlier one needs succeeds. */
  predicate Acceptable(m: Mem, list: Word, i: nat, lookup: Result) {
    IsPpi(m, list, i) && (IsPic(m, list, i) ==> lookup.status == Success)
  }

  /** The first n descriptors are installed and one more is looked at. */
  predicate Continues(m: Mem, list: Word, n: nat, lookup: Result) {
    forall i | 0 <= i < n :: Acceptable(m, list, i, lookup) && !IsLast(m, list, i)
  }

  /** How an install ends in a pool with room for `room` more entries, and how many
      descriptors it has shifted and entered by then. */
  predicate Ends(m: Mem, list: Word, room: nat, lookup: Result, n: nat, status: Status) {
    || (// the list is installed up to its terminator
        status == Success && 1 <= n <= room && Continues(m, list, n - 1, lookup)
        && Acceptable(m, list, n - 1, lookup) && IsLast(m, list, n - 1))
    || (// descriptor n is not a PPI
        status == InvalidParameter && n < room && Continues(m, list, n, lookup) && !IsPpi(m, list, n))
    || (// descriptor n needs the lookup, which fails
        status == lookup.status != Success && n < room && Continues(m, list, n, lookup)
        && IsPpi(m, list, n) && IsPic(m, list, n))
    || (// the pool is full
        status == NotFound && n == room && Continues(m, list, n, lookup))
  }

  /** How many descriptors such an install looks at. */
  function Looked(room: nat, n: nat, status: Status): nat {
    if status == Success || n == room then n else n + 1
  }

  /** Descriptor i is shifted at all. */
  predicate Moves(m: Mem, list: Word, i: nat, lookup: Result) {
    Shift(m, list, i, lookup) != 0
  }

  /** If any of the first n descriptors is shifted, the first `looked` ones are
      distinct, and the entries that the shifted ones name share no byte with them.
      Of descriptors that are not shifted nothing is asked, and interfaces may be
      shared. */
  ghost predicate Separate(m: Mem, list: Word, n: nat, looked: nat, lookup: Result) {
    && n <= looked
    && (n > 0 && Moves(m, list, n - 1, lookup) ==> DESCRIPTOR * looked <= SPACE)
    && (forall i: nat, j: nat | i < n && j < looked && Moves(m, list, i, lookup) ::
          ApartFromDesc(Entry(m, list, i, lookup), Desc(list, j)))
  }

  lemma MovesLater(m: Mem, list: Word, i: nat, j: nat, lookup: Result)
    requires i <= j && Moves(m, list, i, lookup)
    ensures Moves(m, list, j, lookup)
  {
    hide IsPic;
  }

  predicate ApartFromDesc(a: int, d: int) {
    Apart(a, d) && Apart(a, d + GUID_FIELD) && Apart(a, d + PPI_FIELD)
  }

  /** Memory after the first n descriptors have been fixed up in turn. */
  function Applied(m: Mem, list: Word, n: nat, lookup: Result): Mem {
    if n == 0 then m
    else Fixup(Applied(m, list, n - 1, lookup), Desc(list, n - 1), Shift(m, list, n - 1, lookup))
  }

  // ----- One fixup -----

  lemma FixupReads(m: Mem, d: Word, fix: Word, a: int)
    requires ApartFromDesc(Ptr(Read32(m, d + PPI_FIELD) + fix), d)
    ensures var e := Ptr(Read32(m, d + PPI_FIELD) + fix);
            var m' := Fixup(m, d, fix);
            && Read32(m', d + PPI_FIELD) == e
            && Read32(m', e) == Ptr(Read32(m, e) + fix)
            && Read32(m', d + GUID_FIELD) == Ptr(Read32(m, d + GUID_FIELD) + fix)
            && (Apart(e, a) && Apart(d + GUID_FIELD, a) && Apart(d + PPI_FIELD, a) ==> Read32(m', a) == Read32(m, a))
  {
    var e := Ptr(Read32(m, d + PPI_FIELD) + fix);
    FieldsApart(d);
    ApartSymmetric(e, d + PPI_FIELD);
    ApartSymmetric(e, d + GUID_FIELD);
    hide Write32, Read32, Ptr, Apart;
    var m1 := Write32(m, d + PPI_FIELD, e);
    var v := Ptr(Read32(m1, e) + fix);
    var m2 := Write32(m1, e, v);
    var g := Ptr(Read32(m2, d + GUID_FIELD) + fix);
    ReadWritten32(m, d + PPI_FIELD, e);
    ReadApart(m1, e, v, d + PPI_FIELD);
    ReadApart(m2, d + GUID_FIELD, g, d + PPI_FIELD);
    ReadApart(m, d + PPI_FIELD, e, e);
    ReadWritten32(m1, e, v);
    ReadApart(m2, d + GUID_FIELD, g, e);
    ReadApart(m, d + PPI_FIELD, e, d + GUID_FIELD);
    ReadApart(m1, e, v, d + GUID_FIELD);
    ReadWritten32(m2, d + GUID_FIELD, g);
    if Apart(e, a) && Apart(d + GUID_FIELD, a) && Apart(d + PPI_FIELD, a) {
      ReadApart(m, d + PPI_FIELD, e, a);
      ReadApart(m1, e, v, a);
      ReadApart(m2, d + GUID_FIELD, g, a);
    }
  }

  lemma FieldsApart(d: int)
    ensures Apart(d + GUID_FIELD, d + PPI_FIELD) && Apart(d + PPI_FIELD, d + GUID_FIELD)
    ensures Apart(d + GUID_FIELD, d) && Apart(d + PPI_FIELD, d)
  {
    hide Ptr;
    FarApart(d + GUID_FIELD, d + PPI_FIELD);
    FarApart(d + PPI_FIELD, d + GUID_FIELD);
    FarApart(d + GUID_FIELD, d);
    FarApart(d + PPI_FIELD, d);
  }

  lemma ApartSymmetric(a: int, b: int)
    ensures Apart(a, b) <==> Apart(b, a)
  {
  }

  lemma FixupKeepsByte(m: Mem, d: Word, fix: Word, x: Word)
    requires !Within(x, d + PPI_FIELD, 4) && !Within(x, d + GUID_FIELD, 4)
    requires !Within(x, Ptr(Read32(m, d + PPI_FIELD) + fix), 4)
    ensures Fixup(m, d, fix)[x] == m[x]
  {
    hide Write, Read32, Ptr, Within;
    var e := Ptr(Read32(m, d + PPI_FIELD) + fix);
    var m1 := Write32(m, d + PPI_FIELD, e);
    var v := Ptr(Read32(m1, e) + fix);
    var m2 := Write32(m1, e, v);
    WriteKeepsByte(m, d + PPI_FIELD, 4, e, x);
    WriteKeepsByte(m1, e, 4, v, x);
    WriteKeepsByte(m2, d + GUID_FIELD, 4, Ptr(Read32(m2, d + GUID_FIELD) + fix), x);
  }

  // ----- All fixups -----

  /** Descriptor j in m', when it was as in m before and the first `done`
      descriptors have been shifted. */
  predicate Shifted(m: Mem, m': Mem, list: Word, j: nat, lookup: Result, done: nat) {
    var d := Desc(list, j);
    var shift := if j < done then Shift(m, list, j, lookup) else 0;
    && Read32(m', d) == Read32(m, d)
    && Read32(m', d + PPI_FIELD) == Ptr(Read32(m, d + PPI_FIELD) + shift)
    && Read32(m', d + GUID_FIELD) == Ptr(Read32(m, d + GUID_FIELD) + shift)
  }

  lemma PtrPeriod(a: int, k: int)
    ensures Ptr(a + SPACE * k) == Ptr(a)
  {
    PtrIs(a);
    PtrIs(a + SPACE * k);
    QuotientUnique(a + SPACE * k, SPACE, a / SPACE + k, a % SPACE);
  }

  /** Words at wrapped addresses are apart if the addresses are far apart. */
  lemma FarApartWrapped(x: int, y: int, c: int, e: int)
    requires 4 <= x + c - y - e <= SPACE - 4 || 4 <= y + e - x - c <= SPACE - 4
    ensures Apart(Ptr(x) + c, Ptr(y) + e)
  {
    PtrIs(x);
    PtrIs(y);
    var p, q := x / SPACE, y / SPACE;
    assert x == SPACE * p + Ptr(x) && y == SPACE * q + Ptr(y);
    PtrPeriod(Ptr(x) + c - (Ptr(y) + e), p - q);
    PtrPeriod(Ptr(y) + e - (Ptr(x) + c), q - p);
    FarApart(x + c, y + e);
  }

  lemma DescsApart(list: Word, i: nat, j: nat, looked: nat)
    requires i < looked && j < looked && i != j && DESCRIPTOR * looked <= SPACE
    ensures ApartFromDesc(Desc(list, i) + PPI_FIELD, Desc(list, j))
    ensures ApartFromDesc(Desc(list, i) + GUID_FIELD, Desc(list, j))
  {
    hide Ptr, Apart;
    var x, y := list + DESCRIPTOR * i, list + DESCRIPTOR * j;
    FarApartWrapped(x, y, PPI_FIELD, 0);
    FarApartWrapped(x, y, PPI_FIELD, GUID_FIELD);
    FarApartWrapped(x, y, PPI_FIELD, PPI_FIELD);
    FarApartWrapped(x, y, GUID_FIELD, 0);
    FarApartWrapped(x, y, GUID_FIELD, GUID_FIELD);
    FarApartWrapped(x, y, GUID_FIELD, PPI_FIELD);
  }

  lemma {:induction false} AppliedShifts(m: Mem, list: Word, i: nat, n: nat, looked: nat, lookup: Result)
    requires i <= n && Separate(m, list, n, looked, lookup)
    ensures forall j: nat | j < n :: Shifted(m, Applied(m, list, i, lookup), list, j, lookup, i)
    ensures forall j: nat | n <= j < looked :: Read32(Applied(m, list, i, lookup), Desc(list, j)) == Flags(m, list, j)
    decreases i
  {
    if i == 0 {
      hide Read32, Shift, Ptr, Entry, Fixup, Apart, ApartFromDesc, Shifted, Separate;
      forall j: nat | j < n
        ensures Shifted(m, m, list, j, lookup, 0)
      {
        UnshiftedSelf(m, list, j, lookup);
      }
    } else {
      hide Read32, Ptr, Shift, Entry, Fixup, Apart, ApartFromDesc, Shifted;
      AppliedShifts(m, list, i - 1, n, looked, lookup);
      forall j: nat | j < n
        ensures Shifted(m, Applied(m, list, i, lookup), list, j, lookup, i)
      {
        StepShifts(m, Applied(m, list, i - 1, lookup), list, i - 1, j, n, looked, lookup);
      }
      forall j: nat | n <= j < looked
        ensures Read32(Applied(m, list, i, lookup), Desc(list, j)) == Flags(m, list, j)
      {
        StepKeepsFlags(m, Applied(m, list, i - 1, lookup), list, i - 1, j, n, looked, lookup);
      }
    }
  }

  lemma UnshiftedSelf(m: Mem, list: Word, j: nat, lookup: Result)
    ensures Shifted(m, m, list, j, lookup, 0)
  {
    hide Read32, Entry;
    var d := Desc(list, j);
    NoWraps(Read32(m, d + PPI_FIELD));
    NoWraps(Read32(m, d + GUID_FIELD));
  }

  lemma ShiftedByZero(m: Mem, m': Mem, list: Word, i: nat, j: nat, lookup: Result)
    requires !Moves(m, list, i, lookup) && Shifted(m, m', list, j, lookup, i)
    ensures Shifted(m, m', list, j, lookup, i + 1)
  {
    hide Read32, Ptr, Shift, Entry;
  }

  /** What fixing up descriptor i does to descriptor j. */
  lemma StepShifts(m: Mem, m': Mem, list: Word, i: nat, j: nat, n: nat, looked: nat, lookup: Result)
    requires i < n && j < n && Separate(m, list, n, looked, lookup)
    requires Shifted(m, m', list, i, lookup, i) && Shifted(m, m', list, j, lookup, i)
    ensures Shifted(m, Fixup(m', Desc(list, i), Shift(m, list, i, lookup)), list, j, lookup, i + 1)
  {
    hide Read32, Ptr, Shift, Fixup, Apart, Desc;
    var d, d', shift := Desc(list, i), Desc(list, j), Shift(m, list, i, lookup);
    if shift == 0 {
      FixupByZero(m', d);
      ShiftedByZero(m, m', list, i, j, lookup);
    } else {
      MovesLater(m, list, i, n - 1, lookup);
      var e := Entry(m, list, i, lookup);
      NoWraps(Read32(m, d + PPI_FIELD));
      NoWraps(Read32(m, d + GUID_FIELD));
      assert ApartFromDesc(e, d);
      FixupReads(m', d, shift, d);
      FieldsApart(d);
      if i != j {
        DescsApart(list, i, j, looked);
        assert ApartFromDesc(e, d');
        FixupReads(m', d, shift, d');
        FixupReads(m', d, shift, d' + PPI_FIELD);
        FixupReads(m', d, shift, d' + GUID_FIELD);
      }
    }
  }

  lemma StepKeepsFlags(m: Mem, m': Mem, list: Word, i: nat, j: nat, n: nat, looked: nat, lookup: Result)
    requires i < n <= j < looked && Separate(m, list, n, looked, lookup)
    requires Shifted(m, m', list, i, lookup, i)
    ensures Read32(Fixup(m', Desc(list, i), Shift(m, list, i, lookup)), Desc(list, j)) == Read32(m', Desc(list, j))
  {
    hide Read32, Ptr, Shift, Fixup, Apart, Desc;
    var d, shift := Desc(list, i), Shift(m, list, i, lookup);
    if shift == 0 {
      FixupByZero(m', d);
    } else {
      MovesLater(m, list, i, n - 1, lookup);
      NoWraps(Read32(m, d + PPI_FIELD));
      assert ApartFromDesc(Entry(m, list, i, lookup), d) && ApartFromDesc(Entry(m, list, i, lookup), Desc(list, j));
      DescsApart(list, i, j, looked);
      FixupReads(m', d, shift, Desc(list, j));
    }
  }

  // ----- Entries -----

  /** How many of the first n descriptors are shifted and name the entry at e. */
  function Namers(m: Mem, list: Word, n: nat, lookup: Result, e: Word): nat {
    if n == 0 then 0
    else Namers(m, list, n - 1, lookup, e)
         + if Moves(m, list, n - 1, lookup) && Entry(m, list, n - 1, lookup) == e then 1 else 0
  }

  /** No shifted descriptor names an entry that overlaps the one at e in part. */
  ghost predicate NamedWhole(m: Mem, list: Word, n: nat, lookup: Result, e: Word) {
    forall j: nat | j < n && Moves(m, list, j, lookup) ::
      Entry(m, list, j, lookup) == e || Apart(Entry(m, list, j, lookup), e)
  }

  /** The entry at e in m', when it was as in m before: shifted once for every
      descriptor that names it. */
  predicate EntryShifted(m: Mem, m': Mem, list: Word, n: nat, lookup: Result, e: Word) {
    Read32(m', e) == Ptr(Read32(m, e) + lookup.section * Namers(m, list, n, lookup, e))
  }

  lemma {:induction false} AppliedEntry(m: Mem, list: Word, i: nat, n: nat, looked: nat, lookup: Result, k: nat)
    requires i <= n && k < n && Moves(m, list, k, lookup) && Separate(m, list, n, looked, lookup)
    requires NamedWhole(m, list, n, lookup, Entry(m, list, k, lookup))
    ensures EntryShifted(m, Applied(m, list, i, lookup), list, i, lookup, Entry(m, list, k, lookup))
    decreases i
  {
    hide Read32, Ptr, Shift, Entry, Fixup, Apart, Shifted, Desc, Separate, NamedWhole, Moves;
    if i == 0 {
      NoWraps(Read32(m, Entry(m, list, k, lookup)));
    } else {
      hide EntryShifted;
      AppliedEntry(m, list, i - 1, n, looked, lookup, k);
      AppliedShifts(m, list, i - 1, n, looked, lookup);
      StepEntry(m, Applied(m, list, i - 1, lookup), list, i - 1, n, looked, lookup, k);
    }
  }

  /** What fixing up descriptor i does to the entry of descriptor k. */
  lemma StepEntry(m: Mem, m': Mem, list: Word, i: nat, n: nat, looked: nat, lookup: Result, k: nat)
    requires i < n && k < n && Moves(m, list, k, lookup) && Separate(m, list, n, looked, lookup)
    requires NamedWhole(m, list, n, lookup, Entry(m, list, k, lookup)) && Shifted(m, m', list, i, lookup, i)
    requires EntryShifted(m, m', list, i, lookup, Entry(m, list, k, lookup))
    ensures EntryShifted(m, Fixup(m', Desc(list, i), Shift(m, list, i, lookup)), list, i + 1, lookup,
                         Entry(m, list, k, lookup))
  {
    hide Read32, Ptr, Shift, Entry, Fixup, Apart, Shifted, Desc;
    var e, d, shift := Entry(m, list, k, lookup), Desc(list, i), Shift(m, list, i, lookup);
    if shift == 0 {
      FixupByZero(m', d);
    } else {
      assert shift == lookup.section by { ShiftIsSection(m, list, i, lookup); }
      EntryUnchangedPointer(m, m', list, i, lookup);
      assert ApartFromDesc(Entry(m, list, i, lookup), d) && ApartFromDesc(e, d);
      ApartSymmetric(e, d + PPI_FIELD);
      ApartSymmetric(e, d + GUID_FIELD);
      FixupReads(m', d, shift, e);
      if Entry(m, list, i, lookup) == e {
        PtrSum(Read32(m, e) + lookup.section * Namers(m, list, i, lookup, e), shift);
      }
    }
  }

  lemma ShiftIsSection(m: Mem, list: Word, i: nat, lookup: Result)
    requires Moves(m, list, i, lookup)
    ensures Shift(m, list, i, lookup) == lookup.section
  {
    hide PicBefore;
  }

  /** The pointer that the next fixup reads still leads to the descriptor's entry. */
  lemma EntryUnchangedPointer(m: Mem, m': Mem, list: Word, i: nat, lookup: Result)
    requires Shifted(m, m', list, i, lookup, i)
    ensures Ptr(Read32(m', Desc(list, i) + PPI_FIELD) + Shift(m, list, i, lookup)) == Entry(m, list, i, lookup)
  {
    hide Read32, Ptr, Shift, Desc;
    NoWraps(Read32(m, Desc(list, i) + PPI_FIELD));
  }

  lemma {:induction false} NoNamers(m: Mem, list: Word, n: nat, lookup: Result, e: Word)
    ensures Namers(m, list, n, lookup, e) == 0
       <==> forall j: nat | j < n && Moves(m, list, j, lookup) :: Entry(m, list, j, lookup) != e
    decreases n
  {
    hide Moves, Entry;
    if n > 0 {
      NoNamers(m, list, n - 1, lookup, e);
    }
  }

  /** Descriptor k is the only one that names its entry exactly if there is one namer. */
  lemma {:induction false} OneNamer(m: Mem, list: Word, n: nat, lookup: Result, k: nat)
    requires k < n && Moves(m, list, k, lookup)
    ensures Namers(m, list, n, lookup, Entry(m, list, k, lookup)) >= 1
    ensures Namers(m, list, n, lookup, Entry(m, list, k, lookup)) == 1
       <==> forall j: nat | j < n && j != k && Moves(m, list, j, lookup) ::
              Entry(m, list, j, lookup) != Entry(m, list, k, lookup)
    decreases n
  {
    hide Moves, Entry;
    if k == n - 1 {
      NoNamers(m, list, n - 1, lookup, Entry(m, list, k, lookup));
    } else {
      OneNamer(m, list, n - 1, lookup, k);
    }
  }

  /** A byte of a word that one of the first n fixups changes. */
  ghost predicate Written(m: Mem, list: Word, n: nat, lookup: Result, x: Word) {
    exists i: nat :: i < n && Moves(m, list, i, lookup) && WrittenBy(m, list, i, lookup, x)
  }

  predicate WrittenBy(m: Mem, list: Word, i: nat, lookup: Result, x: Word) {
    || Within(x, Desc(list, i) + GUID_FIELD, 4)
    || Within(x, Desc(list, i) + PPI_FIELD, 4)
    || Within(x, Entry(m, list, i, lookup), 4)
  }

  lemma {:induction false} AppliedKeepsByte(m: Mem, list: Word, i: nat, n: nat, looked: nat, lookup: Result, x: Word)
    requires i <= n <= looked && Separate(m, list, n, looked, lookup)
    requires !Written(m, list, n, lookup, x)
    ensures Applied(m, list, i, lookup)[x] == m[x]
    decreases i
  {
    hide Read32, Ptr, Shift, Fixup, Apart, ApartFromDesc, Within, Separate;
    if i > 0 {
      AppliedKeepsByte(m, list, i - 1, n, looked, lookup, x);
      var m' := Applied(m, list, i - 1, lookup);
      if Moves(m, list, i - 1, lookup) {
        AppliedShifts(m, list, i - 1, n, looked, lookup);
        assert Shifted(m, m', list, i - 1, lookup, i - 1) && !WrittenBy(m, list, i - 1, lookup, x);
        NoWraps(Read32(m, Desc(list, i - 1) + PPI_FIELD));
        FixupKeepsByte(m', Desc(list, i - 1), Shift(m, list, i - 1, lookup), x);
      } else {
        FixupByZero(m', Desc(list, i - 1));
      }
    }
  }

  // ----- How an install ends -----

  /** Every install ends in one of the ways listed. */
  lemma {:induction false} EndsSomehow(m: Mem, list: Word, room: nat, lookup: Result, i: nat)
      returns (n: nat, status: Status)
    requires i <= room && Continues(m, list, i, lookup)
    ensures Ends(m, list, room, lookup, n, status)
    decreases room - i
  {
    hide IsPpi, IsPic, IsLast;
    if i == room {
      n, status := i, NotFound;
    } else if !IsPpi(m, list, i) {
      n, status := i, InvalidParameter;
    } else if !Acceptable(m, list, i, lookup) {
      n, status := i, lookup.status;
    } else if IsLast(m, list, i) {
      n, status := i + 1, Success;
    } else {
      n, status := EndsSomehow(m, list, room, lookup, i + 1);
    }
  }

  /** What is passed before the end raises no objection and is not terminated. */
  lemma EndsPassed(m: Mem, list: Word, room: nat, lookup: Result, n: nat, status: Status, i: nat)
    requires Ends(m, list, room, lookup, n, status) && i < n
    ensures Acceptable(m, list, i, lookup)
    ensures i + 1 < n || status != Success ==> !IsLast(m, list, i)
  {
    hide IsPpi, IsPic, IsLast;
  }

  /** And in only one. */
  lemma EndsOnce(m: Mem, list: Word, room: nat, lookup: Result, n1: nat, s1: Status, n2: nat, s2: Status)
    requires Ends(m, list, room, lookup, n1, s1) && Ends(m, list, room, lookup, n2, s2) && n1 <= n2
    ensures n1 == n2 && s1 == s2
  {
    hide IsPpi, IsPic, IsLast;
    if n1 < n2 {
      EndsPassed(m, list, room, lookup, n2, s2, n1);
    }
    if n1 > 0 {
      EndsPassed(m, list, room, lookup, n2, s2, n1 - 1);
      EndsPassed(m, list, room, lookup, n1, s1, n1 - 1);
    }
  }

  /** The fixup the loop holds when it comes to descriptor i. */
  function Held(m: Mem, list: Word, i: nat, lookup: Result): Word {
    if PicBefore(m, list, i) then lookup.section else 0
  }

  lemma HeldStep(m: Mem, list: Word, i: nat, lookup: Result)
    ensures PicBefore(m, list, i + 1) <==> PicBefore(m, list, i) || IsPic(m, list, i)
  {
    hide IsPic;
    if PicBefore(m, list, i) {
      var j :| 0 <= j < i && IsPic(m, list, j);
    }
  }

  /** The loop does what Ends says from descriptor i on. */
  lemma {:induction false} LoopFollows(m: Mem, pool: seq<Word>, last: nat, list: Word, i: nat, lookup: Result,
      n: nat, status: Status)
    requires last + i < |pool| && i <= n
    requires Ends(m, list, |pool| - last, lookup, n, status) && (i == n ==> status != Success && n < |pool| - last)
    requires Separate(m, list, n, Looked(|pool| - last, n, status), lookup)
    ensures var mi, d, fix := Applied(m, list, i, lookup), Desc(list, i), Held(m, list, i, lookup);
            var r := InstallLoop(mi, pool, last, last + i, d, fix, lookup);
            && r.status == status && r.db.mem == Applied(m, list, n, lookup)
            && r.db.count == if status == Success then last + n else last
    decreases n - i
  {
    hide Read32, Ptr, Fixup, Apart, ApartFromDesc, Within, Bit, Entry, Separate, PicBefore;
    var room := |pool| - last;
    var looked := Looked(room, n, status);
    var mi, d := Applied(m, list, i, lookup), Desc(list, i);
    ReadsFlags(m, list, i, i, n, looked, lookup);
    HeldStep(m, list, i, lookup);
    if PicBefore(m, list, i) {
      PicMeansSuccess(m, list, room, i, lookup, n, status);
    }
    if i < n {
      assert Acceptable(m, list, i, lookup);
      ReadsFlags(m, list, i, i + 1, n, looked, lookup);
      DescNext(list, i);
      if i + 1 < n || (status != Success && n < room) {
        assert !IsLast(m, list, i);
        LoopFollows(m, pool[last + i := d], last, list, i + 1, lookup, n, status);
      }
    }
  }

  lemma ReadsFlags(m: Mem, list: Word, j: nat, i: nat, n: nat, looked: nat, lookup: Result)
    requires Separate(m, list, n, looked, lookup) && i <= n && j < looked
    ensures Read32(Applied(m, list, i, lookup), Desc(list, j)) == Flags(m, list, j)
  {
    hide Read32, Ptr, Fixup, Apart, ApartFromDesc, Entry, Separate;
    AppliedShifts(m, list, i, n, looked, lookup);
    if j < n {
      assert Shifted(m, Applied(m, list, i, lookup), list, j, lookup, i);
    }
  }

  lemma PicMeansSuccess(m: Mem, list: Word, room: nat, i: nat, lookup: Result, n: nat, status: Status)
    requires Ends(m, list, room, lookup, n, status) && i <= n && PicBefore(m, list, i)
    ensures lookup.status == Success
  {
    hide IsPpi, IsPic, IsLast;
    var j :| 0 <= j < i && IsPic(m, list, j);
    assert Acceptable(m, list, j, lookup);
  }

  /** PeiInstallPpi, told from memory before the call: it ends as Ends says, so it
      succeeds exactly when every descriptor up to the first terminated one is a
      PPI, they fit, and a lookup that they need succeeds; the pool then is the
      old one and those descriptors. Otherwise the visible entries are unchanged
      and the status is that of the first obstacle. The pointers of each descriptor
      passed are shifted once, the entry it names once for every descriptor that
      names it, and no other byte is written. */
  lemma InstallFollows(db: Db, list: Word, lookup: Result, n: nat, status: Status)
    requires db.Valid() && list != 0 && db.count < |db.pool|
    requires Ends(db.mem, list, |db.pool| - db.count, lookup, n, status)
    requires Separate(db.mem, list, n, Looked(|db.pool| - db.count, n, status), lookup)
    ensures var r := Install(db, list, lookup);
            && r.status == status
            && r.db.Valid()
            && r.db.Entries() == db.Entries() + (if status == Success then Descriptors(list, n) else [])
            && (forall j: nat | j < n :: Shifted(db.mem, r.db.mem, list, j, lookup, n))
            && (forall k: nat | k < n && Moves(db.mem, list, k, lookup) ::
                  var e := Entry(db.mem, list, k, lookup);
                  NamedWhole(db.mem, list, n, lookup, e) ==> EntryShifted(db.mem, r.db.mem, list, n, lookup, e))
            && (forall x: Word | !Written(db.mem, list, n, lookup, x) :: r.db.mem[x] == db.mem[x])
  {
    hide Read32, Fixup, Apart, ApartFromDesc, Within, Bit, Entry, Shifted, Separate, InstallLoop, Ptr, Written, Moves,
         NamedWhole, EntryShifted;
    var r := Install(db, list, lookup);
    var looked := Looked(|db.pool| - db.count, n, status);
    if n == 0 {
      assert status != Success;
    }
    LoopFollows(db.mem, db.pool, db.count, list, 0, lookup, n, status);
    NoWraps(list);
    InstallAppends(db, list, lookup);
    AppliedShifts(db.mem, list, n, n, looked, lookup);
    forall k: nat | k < n && Moves(db.mem, list, k, lookup)
           && NamedWhole(db.mem, list, n, lookup, Entry(db.mem, list, k, lookup))
      ensures EntryShifted(db.mem, r.db.mem, list, n, lookup, Entry(db.mem, list, k, lookup))
    {
      AppliedEntry(db.mem, list, n, n, looked, lookup, k);
    }
    assert status == Success ==> r.db.Entries() == db.Entries() + Descriptors(list, n);
    forall x: Word | !Written(db.mem, list, n, lookup, x)
      ensures r.db.mem[x] == db.mem[x]
    {
      AppliedKeepsByte(db.mem, list, n, n, looked, lookup, x);
    }
  }

  /** The entry of descriptor k is shifted exactly once if and only if no other
      shifted descriptor names it, or the shifts of the others add up to a multiple
      of 2^32; with one other they never do. */
  lemma EntryShiftedOnceIff(db: Db, list: Word, lookup: Result, n: nat, status: Status, k: nat)
    requires db.Valid() && list != 0 && db.count < |db.pool|
    requires Ends(db.mem, list, |db.pool| - db.count, lookup, n, status)
    requires Separate(db.mem, list, n, Looked(|db.pool| - db.count, n, status), lookup)
    requires k < n && Moves(db.mem, list, k, lookup)
    requires NamedWhole(db.mem, list, n, lookup, Entry(db.mem, list, k, lookup))
    ensures var m, m', e := db.mem, Install(db, list, lookup).db.mem, Entry(db.mem, list, k, lookup);
            var others := Namers(m, list, n, lookup, e) - 1;
            && others >= 0
            && (others == 0
                <==> forall j: nat | j < n && j != k && Moves(m, list, j, lookup) :: Entry(m, list, j, lookup) != e)
            && (Read32(m', e) == Ptr(Read32(m, e) + lookup.section) <==> Ptr(lookup.section * others) == 0)
            && (others == 1 ==> Read32(m', e) != Ptr(Read32(m, e) + lookup.section))
  {
    hide Read32, Fixup, Apart, ApartFromDesc, Bit, Entry, Separate, Install, Ptr, Continues, Acceptable, WrittenBy,
         Shifted, Moves, NamedWhole, Namers;
    var e := Entry(db.mem, list, k, lookup);
    InstallFollows(db, list, lookup, n, status);
    OneNamer(db.mem, list, n, lookup, k);
    ShiftIsSection(db.mem, list, k, lookup);
    assert lookup.section != 0 by { MovesMeans(db.mem, list, k, lookup); }
    assert EntryShifted(db.mem, Install(db, list, lookup).db.mem, list, n, lookup, e);
    MoreShifts(Read32(db.mem, e), lookup.section, Namers(db.mem, list, n, lookup, e) - 1);
  }

  lemma MovesMeans(m: Mem, list: Word, i: nat, lookup: Result)
    ensures Moves(m, list, i, lookup) <==> Shift(m, list, i, lookup) != 0
  {
  }

  lemma MoreShifts(w: Word, shift: Word, others: nat)
    requires shift != 0
    ensures Ptr(w + shift * (others + 1)) == Ptr(w + shift) <==> Ptr(shift * others) == 0
    ensures others == 1 ==> Ptr(shift * others) != 0
  {
    var x := shift * others;
    assert w + shift * (others + 1) == w + shift + x;
    PtrIs(w + shift + x);
    PtrIs(w + shift);
    PtrIs(x);
    hide Ptr;
    SameRemainder(w + shift, x);
  }

  lemma SameRemainder(a: int, x: int)
    ensures (a + x) % SPACE == a % SPACE <==> x % SPACE == 0
  {
    var q := a / SPACE;
    assert a == SPACE * q + a % SPACE;
    if x % SPACE == 0 {
      QuotientUnique(a + x, SPACE, q + x / SPACE, a % SPACE);
    }
    if (a + x) % SPACE == a % SPACE {
      QuotientUnique(x, SPACE, (a + x) / SPACE - q, 0);
    }
  }

  /** Pointers to the first n descriptors of a list. */
  function Descriptors(list: Word, n: nat): (s: seq<Word>)
    ensures |s| == n
  {
    seq(n, i requires 0 <= i < n => Desc(list, i))
  }

  /** A rejected list is not always left as it was: its descriptors are unchanged
      exactly when none of those passed is position-independent, or the shift
      is 0. */
  lemma RejectedListUnchangedIff(db: Db, list: Word, lookup: Result, n: nat, status: Status)
    requires db.Valid() && list != 0 && db.count < |db.pool| && status != Success
    requires Ends(db.mem, list, |db.pool| - db.count, lookup, n, status)
    requires Separate(db.mem, list, n, Looked(|db.pool| - db.count, n, status), lookup)
    ensures Install(db, list, lookup).db.mem == db.mem <==> !PicBefore(db.mem, list, n) || lookup.section == 0
  {
    hide Read32, Fixup, Apart, ApartFromDesc, Within, Bit, Separate, Install, Ptr, IsPic, Continues, Acceptable,
         Written;
    var m := db.mem;
    var looked := Looked(|db.pool| - db.count, n, status);
    InstallFollows(db, list, lookup, n, status);
    InstallIsApplied(db, list, lookup, n, status);
    if !PicBefore(m, list, n) || lookup.section == 0 {
      forall i: nat | i < n
        ensures Shift(m, list, i, lookup) == 0
      {
        PicBeforeLater(m, list, i + 1, n);
      }
      AppliedByZero(m, list, n, lookup);
    } else {
      var d := Desc(list, n - 1) + PPI_FIELD;
      assert Shifted(m, Install(db, list, lookup).db.mem, list, n - 1, lookup, n);
      ShiftMoves(Read32(m, d), lookup.section);
    }
  }

  /** A list of which no descriptor passed is position-independent: whatever its
      interfaces and its place, memory is left as it is. */
  lemma PlainInstall(db: Db, list: Word, lookup: Result, n: nat, status: Status)
    requires db.Valid() && list != 0 && db.count < |db.pool|
    requires Ends(db.mem, list, |db.pool| - db.count, lookup, n, status)
    requires !PicBefore(db.mem, list, n) || lookup.section == 0
    ensures var r := Install(db, list, lookup);
            && r.status == status && r.db.Valid() && r.db.mem == db.mem
            && r.db.Entries() == db.Entries() + (if status == Success then Descriptors(list, n) else [])
  {
    hide Read32, Fixup, Apart, ApartFromDesc, Bit, Entry, Install, Ptr, IsPic, Continues, Acceptable, WrittenBy,
         Shifted;
    forall i: nat | i < n
      ensures !Moves(db.mem, list, i, lookup)
    {
      PicBeforeLater(db.mem, list, i + 1, n);
    }
    InstallFollows(db, list, lookup, n, status);
    assert Install(db, list, lookup).db.mem == db.mem;
  }

  /** A second attempt to install a rejected list is rejected likewise, and leaves
      its pointers shifted twice. */
  lemma RejectedAgain(db: Db, list: Word, lookup: Result, n: nat, status: Status)
    requires db.Valid() && list != 0 && db.count < |db.pool| && status != Success
    requires Ends(db.mem, list, |db.pool| - db.count, lookup, n, status)
    requires var looked := Looked(|db.pool| - db.count, n, status);
             && Separate(db.mem, list, n, looked, lookup)
             && Separate(Install(db, list, lookup).db.mem, list, n, looked, lookup)
    ensures var first := Install(db, list, lookup);
            && first.status == status && first.db.Valid() && first.db.Entries() == db.Entries()
            && var second := Install(first.db, list, lookup);
               && second.status == status && second.db.Valid() && second.db.Entries() == db.Entries()
               && forall j: nat | j < n ::
                    ShiftedTwice(db.mem, second.db.mem, list, j, lookup)
  {
    hide Read32, Fixup, Apart, ApartFromDesc, Bit, Separate, Install, Ptr, Written, Shifted, Continues, Acceptable,
         Shift, Pointer, Desc;
    var room := |db.pool| - db.count;
    var looked := Looked(room, n, status);
    var first := Install(db, list, lookup);
    InstallFollows(db, list, lookup, n, status);
    InstallIsApplied(db, list, lookup, n, status);
    InstallAppends(db, list, lookup);
    forall j: nat | j < looked
      ensures SameFlags(db.mem, first.db.mem, list, j)
    {
      ReadsFlags(db.mem, list, j, n, n, looked, lookup);
    }
    SameEnd(db.mem, first.db.mem, list, room, lookup, n, status);
    InstallFollows(first.db, list, lookup, n, status);
    var second := Install(first.db, list, lookup);
    forall j: nat | j < n
      ensures ShiftedTwice(db.mem, second.db.mem, list, j, lookup)
    {
      var shift := Shift(db.mem, list, j, lookup);
      SameShift(db.mem, first.db.mem, list, j, looked, lookup);
      ShiftedPointers(db.mem, first.db.mem, list, j, lookup, n);
      ShiftedPointers(first.db.mem, second.db.mem, list, j, lookup, n);
      PtrSum(Pointer(db.mem, list, j, PPI_FIELD) + shift, shift);
      PtrSum(Pointer(db.mem, list, j, GUID_FIELD) + shift, shift);
    }
  }

  /** Both pointers of descriptor j, shifted twice. */
  predicate ShiftedTwice(m: Mem, m': Mem, list: Word, j: nat, lookup: Result) {
    var shift := Shift(m, list, j, lookup);
    && Pointer(m', list, j, PPI_FIELD) == Ptr(Pointer(m, list, j, PPI_FIELD) + 2 * shift)
    && Pointer(m', list, j, GUID_FIELD) == Ptr(Pointer(m, list, j, GUID_FIELD) + 2 * shift)
  }

  function Pointer(m: Mem, list: Word, j: nat, field: nat): Word {
    Read32(m, Desc(list, j) + field)
  }

  lemma ShiftedPointers(m: Mem, m': Mem, list: Word, j: nat, lookup: Result, n: nat)
    requires j < n && Shifted(m, m', list, j, lookup, n)
    ensures Pointer(m', list, j, PPI_FIELD) == Ptr(Pointer(m, list, j, PPI_FIELD) + Shift(m, list, j, lookup))
    ensures Pointer(m', list, j, GUID_FIELD) == Ptr(Pointer(m, list, j, GUID_FIELD) + Shift(m, list, j, lookup))
  {
    hide Read32, Ptr, Shift, Entry;
  }

  /** What an install asks of descriptor i is the same in both memories. */
  predicate SameFlags(m: Mem, m': Mem, list: Word, i: nat) {
    && (IsPpi(m', list, i) <==> IsPpi(m, list, i))
    && (IsPic(m', list, i) <==> IsPic(m, list, i))
    && (IsLast(m', list, i) <==> IsLast(m, list, i))
  }

  lemma SameShift(m: Mem, m': Mem, list: Word, j: nat, looked: nat, lookup: Result)
    requires j < looked && forall i: nat | i < looked :: SameFlags(m, m', list, i)
    ensures Shift(m', list, j, lookup) == Shift(m, list, j, lookup)
  {
    hide IsPpi, IsPic, IsLast;
    forall i: nat | i < j + 1
      ensures IsPic(m', list, i) <==> IsPic(m, list, i)
    {
      assert SameFlags(m, m', list, i);
    }
  }

  lemma SameContinues(m: Mem, m': Mem, list: Word, n: nat, lookup: Result)
    requires Continues(m, list, n, lookup)
    requires forall i: nat | i < n :: SameFlags(m, m', list, i)
    ensures Continues(m', list, n, lookup)
  {
    hide IsPpi, IsPic, IsLast;
    forall i: nat | i < n
      ensures Acceptable(m', list, i, lookup) && !IsLast(m', list, i)
    {
      assert SameFlags(m, m', list, i) && Acceptable(m, list, i, lookup);
    }
  }

  /** How an install ends is read from the flags alone. */
  lemma SameEnd(m: Mem, m': Mem, list: Word, room: nat, lookup: Result, n: nat, status: Status)
    requires Ends(m, list, room, lookup, n, status)
    requires forall i: nat | i < Looked(room, n, status) :: SameFlags(m, m', list, i)
    ensures Ends(m', list, room, lookup, n, status)
  {
    hide IsPpi, IsPic, IsLast, Continues;
    if status == Success {
      SameContinues(m, m', list, n - 1, lookup);
      assert SameFlags(m, m', list, n - 1);
    } else {
      SameContinues(m, m', list, n, lookup);
      assert n < room ==> SameFlags(m, m', list, n);
    }
  }

  lemma PicBeforeLater(m: Mem, list: Word, i: nat, n: nat)
    requires i <= n
    ensures PicBefore(m, list, i) ==> PicBefore(m, list, n)
  {
    hide IsPic;
  }

  lemma ShiftMoves(w: Word, s: Word)
    requires s != 0
    ensures Ptr(w + s) != w
  {
    PtrNear(w + s);
  }

  lemma {:induction false} AppliedByZero(m: Mem, list: Word, n: nat, lookup: Result)
    requires forall i: nat | i < n :: Shift(m, list, i, lookup) == 0
    ensures Applied(m, list, n, lookup) == m
  {
    hide Fixup, Shift, Ptr;
    if n > 0 {
      AppliedByZero(m, list, n - 1, lookup);
      FixupByZero(m, Desc(list, n - 1));
    }
  }

  lemma InstallIsApplied(db: Db, list: Word, lookup: Result, n: nat, status: Status)
    requires db.Valid() && list != 0 && db.count < |db.pool|
    requires Ends(db.mem, list, |db.pool| - db.count, lookup, n, status)
    requires Separate(db.mem, list, n, Looked(|db.pool| - db.count, n, status), lookup)
    ensures Install(db, list, lookup).db.mem == Applied(db.mem, list, n, lookup)
  {
    hide Read32, Fixup, Apart, ApartFromDesc, Within, Bit, Entry, Separate, InstallLoop, Ptr, Applied;
    if n == 0 {
      assert status != Success;
    }
    NoWraps(list);
    assert Applied(db.mem, list, 0, lookup) == db.mem by { AppliedNone(db.mem, list, lookup); }
    LoopFollows(db.mem, db.pool, db.count, list, 0, lookup, n, status);
  }

  lemma AppliedNone(m: Mem, list: Word, lookup: Result)
    ensures Applied(m, list, 0, lookup) == m
  {
  }

  // ----- Lookups over whole runs -----

  /** The install leaves the n bytes from a on as they are. */
  ghost predicate Keeps(m: Mem, list: Word, count: nat, lookup: Result, a: int, n: nat) {
    forall k: nat | k < n :: KeepsByte(m, list, count, lookup, a, k)
  }

  ghost predicate KeepsByte(m: Mem, list: Word, n: nat, lookup: Result, a: int, k: nat) {
    !Written(m, list, n, lookup, Ptr(a + k))
  }

  /** It leaves all that a lookup reads of an entry as it is. */
  ghost predicate KeepsEntry(m: Mem, list: Word, n: nat, lookup: Result, d: Word) {
    && Keeps(m, list, n, lookup, d + GUID_FIELD, 4) && Keeps(m, list, n, lookup, d + PPI_FIELD, 4)
    && Keeps(m, list, n, lookup, Read32(m, d + GUID_FIELD), 16)
  }

  /** A list that is separate from itself, from the visible entries and their
      GUIDs, and from the GUID looked for. */
  ghost predicate Orderly(db: Db, list: Word, lookup: Result, guid: Word, n: nat, status: Status)
    requires db.Valid() && db.count < |db.pool|
  {
    && Ends(db.mem, list, |db.pool| - db.count, lookup, n, status)
    && Separate(db.mem, list, n, Looked(|db.pool| - db.count, n, status), lookup)
    && Keeps(db.mem, list, n, lookup, guid, 16)
    && forall d | d in db.Entries() :: KeepsEntry(db.mem, list, n, lookup, d)
  }

  lemma Kept(m: Mem, m': Mem, list: Word, count: nat, lookup: Result, a: int, n: nat)
    requires Keeps(m, list, count, lookup, a, n)
    requires forall x: Word | !Written(m, list, count, lookup, x) :: m'[x] == m[x]
    ensures Read(m', a, n) == Read(m, a, n)
  {
    hide Ptr, Written, Read;
    forall k: nat | k < n
      ensures SameByte(m, a, m', a, k)
    {
      assert KeepsByte(m, list, count, lookup, a, k);
    }
    ReadSame(m, a, m', a, n);
  }

  lemma KeptGuid(m: Mem, m': Mem, list: Word, count: nat, lookup: Result, a: int)
    requires Keeps(m, list, count, lookup, a, 16)
    requires forall x: Word | !Written(m, list, count, lookup, x) :: m'[x] == m[x]
    ensures Read64(m', a) == Read64(m, a) && Read64(m', a + 8) == Read64(m, a + 8)
  {
    hide Ptr, Written, Read;
    var b := a + 8;
    forall k: nat | k < 8
      ensures KeepsByte(m, list, count, lookup, b, k)
    {
      assert KeepsByte(m, list, count, lookup, a, 8 + k);
    }
    Kept(m, m', list, count, lookup, a, 8);
    Kept(m, m', list, count, lookup, b, 8);
  }

  /** What a lookup of guid reads of entry d is the same in both memories. */
  predicate SameLookup(m: Mem, m': Mem, guid: Word, d: Word) {
    (Matches(m', d, guid) <==> Matches(m, d, guid)) && Read32(m', d + PPI_FIELD) == Read32(m, d + PPI_FIELD)
  }

  lemma {:induction false} SameMatching(m: Mem, m': Mem, entries: seq<Word>, guid: Word)
    requires forall d | d in entries :: SameLookup(m, m', guid, d)
    ensures Matching(m', entries, guid) == Matching(m, entries, guid)
    ensures forall d | d in Matching(m, entries, guid) :: d in entries
    decreases |entries|
  {
    hide Matches, Read32;
    if entries != [] {
      var n := |entries| - 1;
      SameMatching(m, m', entries[..n], guid);
      assert entries[n] in entries && SameLookup(m, m', guid, entries[n]);
    }
  }

  /** An orderly install changes no earlier answer. */
  lemma InstallKeepsAnswers(db: Db, list: Word, lookup: Result, guid: Word, n: nat, status: Status)
    requires db.Valid() && list != 0 && db.count < |db.pool| && Orderly(db, list, lookup, guid, n, status)
    ensures var r := Install(db, list, lookup).db;
            && r.Valid() && db.Entries() <= r.Entries()
            && forall d | d in db.Entries() :: SameLookup(db.mem, r.mem, guid, d)
  {
    hide Read, Bit, Separate, Install, Ptr, Keeps, Written, Shifted, Continues, Acceptable;
    InstallFollows(db, list, lookup, n, status);
    var m, m' := db.mem, Install(db, list, lookup).db.mem;
    KeptGuid(m, m', list, n, lookup, guid);
    forall d | d in db.Entries()
      ensures SameLookup(m, m', guid, d)
    {
      assert KeepsEntry(m, list, n, lookup, d);
      Kept(m, m', list, n, lookup, d + GUID_FIELD, 4);
      Kept(m, m', list, n, lookup, d + PPI_FIELD, 4);
      KeptGuid(m, m', list, n, lookup, Read32(m, d + GUID_FIELD));
    }
  }

  /** A sequence of installs, each successful or not; `find` is what CalcPeimFixup
      answers in a given memory. */
  function Run(db: Db, lists: seq<Word>, find: Mem -> Result): (r: Db)
    requires db.Valid()
    ensures r.Valid()
    decreases |lists|
  {
    if lists == [] then db
    else
      var lookup := find(db.mem);
      InstallAppends(db, lists[0], lookup);
      Run(Install(db, lists[0], lookup).db, lists[1..], find)
  }

  /** Every install of the run is orderly, or refused at once. */
  ghost predicate OrderlyRun(db: Db, lists: seq<Word>, find: Mem -> Result, guid: Word)
    requires db.Valid()
    decreases |lists|
  {
    var lookup := find(db.mem);
    lists == [] ||
    (&& (lists[0] != 0 && db.count < |db.pool| ==> exists n, status :: Orderly(db, lists[0], lookup, guid, n, status))
     && Install(db, lists[0], lookup).db.Valid()
     && OrderlyRun(Install(db, lists[0], lookup).db, lists[1..], find, guid))
  }

  /** The descriptors that the run accepts, list by list. */
  ghost function Accepted(db: Db, lists: seq<Word>, find: Mem -> Result): seq<Word>
    requires db.Valid()
    decreases |lists|
  {
    if lists == [] then []
    else
      var lookup := find(db.mem);
      InstallAppends(db, lists[0], lookup);
      AcceptedBy(db, lists[0], lookup) + Accepted(Install(db, lists[0], lookup).db, lists[1..], find)
  }

  ghost function AcceptedBy(db: Db, list: Word, lookup: Result): seq<Word>
    requires db.Valid()
  {
    if list != 0 && db.count < |db.pool| then Taken(db.mem, list, |db.pool| - db.count, lookup) else []
  }

  /** The descriptors up to the terminator if the install succeeds, else none. */
  ghost function Taken(m: Mem, list: Word, room: nat, lookup: Result): (s: seq<Word>)
    ensures forall n, status :: Ends(m, list, room, lookup, n, status) ==>
              s == if status == Success then Descriptors(list, n) else []
  {
    hide Descriptors, Continues, Acceptable;
    assert forall n1, s1, n2, s2 :: Ends(m, list, room, lookup, n1, s1) && Ends(m, list, room, lookup, n2, s2)
                                    ==> n1 == n2 && s1 == s2 by {
      forall n1, s1, n2, s2 | Ends(m, list, room, lookup, n1, s1) && Ends(m, list, room, lookup, n2, s2)
        ensures n1 == n2 && s1 == s2
      {
        if n1 <= n2 {
          EndsOnce(m, list, room, lookup, n1, s1, n2, s2);
        } else {
          EndsOnce(m, list, room, lookup, n2, s2, n1, s1);
        }
      }
    }
    if exists n :: Ends(m, list, room, lookup, n, Success) then
      var n :| Ends(m, list, room, lookup, n, Success);
      Descriptors(list, n)
    else []
  }

  /** After any run the entries are the accepted descriptors behind the old ones,
      in installation order, so that instance k is the k-th of them with the
      GUID; and what was found before the run is found after it. */
  lemma {:induction false} RunKeepsAnswers(db: Db, lists: seq<Word>, find: Mem -> Result, guid: Word)
    requires db.Valid() && OrderlyRun(db, lists, find, guid)
    ensures var e := Run(db, lists, find);
            && e.Entries() == db.Entries() + Accepted(db, lists, find)
            && (forall d | d in db.Entries() :: SameLookup(db.mem, e.mem, guid, d))
            && forall k: nat | k < |Matching(db.mem, db.Entries(), guid)| ::
                 Locate(e.mem, e.Entries(), guid, k) == Locate(db.mem, db.Entries(), guid, k)
    decreases |lists|
  {
    hide Read32, Orderly, Matches, Matching, AcceptedBy, Install;
    var e, lookup := Run(db, lists, find), find(db.mem);
    if lists == [] {
      assert db.Entries() + [] == db.Entries();
    } else {
      var next := Install(db, lists[0], lookup).db;
      StepKeepsAnswers(db, lists[0], lookup, guid);
      RunKeepsAnswers(next, lists[1..], find, guid);
      assert e.Entries() == db.Entries() + Accepted(db, lists, find);
      forall d | d in db.Entries()
        ensures SameLookup(db.mem, e.mem, guid, d)
      {
        assert d in next.Entries() && SameLookup(db.mem, next.mem, guid, d) && SameLookup(next.mem, e.mem, guid, d);
      }
    }
    AnswersKept(db, e, guid);
  }

  lemma StepKeepsAnswers(db: Db, list: Word, lookup: Result, guid: Word)
    requires db.Valid()
    requires list != 0 && db.count < |db.pool| ==> exists n, status :: Orderly(db, list, lookup, guid, n, status)
    ensures var r := Install(db, list, lookup).db;
            && r.Valid() && r.Entries() == db.Entries() + AcceptedBy(db, list, lookup)
            && forall d | d in db.Entries() :: SameLookup(db.mem, r.mem, guid, d)
  {
    hide Read32, Matches, InstallLoop, Ends, Separate, Keeps, KeepsEntry, Shifted, Written;
    if list != 0 && db.count < |db.pool| {
      var n, status :| Orderly(db, list, lookup, guid, n, status);
      InstallKeepsAnswers(db, list, lookup, guid, n, status);
      InstallFollows(db, list, lookup, n, status);
    }
  }

  /** Entries that read the same and are followed by others answer the same. */
  lemma AnswersKept(db: Db, e: Db, guid: Word)
    requires db.Valid() && e.Valid() && db.Entries() <= e.Entries()
    requires forall d | d in db.Entries() :: SameLookup(db.mem, e.mem, guid, d)
    ensures forall k: nat | k < |Matching(db.mem, db.Entries(), guid)| ::
              Locate(e.mem, e.Entries(), guid, k) == Locate(db.mem, db.Entries(), guid, k)
  {
    hide Read32, Matches, Matching;
    SameMatching(db.mem, e.mem, db.Entries(), guid);
    assert e.Entries()[..db.count] == db.Entries();
    MatchingPrefix(e.mem, e.Entries(), guid, db.count);
    forall k: nat | k < |Matching(db.mem, db.Entries(), guid)|
      ensures Locate(e.mem, e.Entries(), guid, k) == Locate(db.mem, db.Entries(), guid, k)
    {
      var d := Matching(db.mem, db.Entries(), guid)[k];
      assert d in db.Entries() && SameLookup(db.mem, e.mem, guid, d);
    }
  }
}
