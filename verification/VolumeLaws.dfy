/** What the walkers guarantee on arbitrary bytes. */
module VolumeLaws {
  import opened Memory
  import opened Guids
  import opened Volume
  import opened Loops

  /** The volume lies inside the address space. */
  ghost predicate Fits(m: Mem, fv: Word) {
    fv + FvLength(m, fv) <= SPACE
  }

  /** No address the loops form below `end` needs a 65th bit. */
  predicate NoWrap(end: Addr) {
    end <= TWO64 - 0x100_0000
  }

  // ----- Termination -----

  /** The number of sections of at least 4 bytes that fit, plus one. */
  function SectionBound(a: Addr, end: Addr): nat {
    if a < end then (end - a) / 4 + 1 else 0
  }

  lemma {:induction false} SectionsEnd(m: Mem, want: Byte, a: Addr, end: Addr)
    requires NoWrap(end)
    ensures SectionWalk(m, want, a, end, SectionBound(a, end)).Some?
    decreases SectionBound(a, end)
  {
    if SectionWalk(m, want, a, end, 0).None? {
      var next := Wrap64(a + SectionSize(m, a));
      SectionsEnd(m, want, next, end);
      SectionFuel(m, want, next, end, SectionBound(next, end), SectionBound(a, end) - 1);
    }
  }

  /** The section at s is whole: not too short, and not too long for its end. */
  predicate WholeSection(m: Mem, s: Addr, end: Addr) {
    SectionSize(m, s) >= SECTION_HEADER && Wrap64(s + SectionSize(m, s)) <= end
  }

  predicate PassesSection(m: Mem, want: Byte, s: Addr, end: Addr) {
    s < end && WholeSection(m, s, end) && SectionKind(m, s) != want
  }

  function SectionTurn(m: Mem, want: Byte, end: Addr): Turn {
    (s: Addr) => if PassesSection(m, want, s, end) then Some(Wrap64(s + SectionSize(m, s))) else None
  }

  lemma {:induction false} SectionTurns(m: Mem, want: Byte, a: Addr, end: Addr, fuel: nat)
    ensures SectionWalk(m, want, a, end, fuel).Some? <==> After(SectionTurn(m, want, end), a, fuel + 1).None?
    decreases fuel
  {
    hide SectionSize, SectionKind, Wrap64, Ptr;
    var turn := SectionTurn(m, want, end);
    assert turn(a) == if PassesSection(m, want, a, end) then Some(Wrap64(a + SectionSize(m, a))) else None;
    if turn(a).Some? {
      if fuel > 0 {
        SectionTurns(m, want, turn(a).value, end, fuel - 1);
      } else {
        assert After(turn, turn(a).value, 0).Some?;
      }
    }
  }

  /** The section loop stops unless it comes to one address twice. That takes a
      section across the 64-bit address space: below it the loop stops on all bytes. */
  lemma SectionWalkTerminates(m: Mem, want: Byte, a: Addr, end: Addr)
    ensures SectionWalkStops(m, want, a, end) <==> !Repeats(SectionTurn(m, want, end), a)
    ensures NoWrap(end) ==> SectionWalk(m, want, a, end, SectionBound(a, end)).Some?
  {
    hide SectionWalk, SectionTurn, Repeats;
    var turn := SectionTurn(m, want, end);
    StopsIffNeverRepeats(turn, a);
    if fuel: nat :| SectionWalk(m, want, a, end, fuel).Some? {
      SectionTurns(m, want, a, end, fuel);
    }
    if n: nat :| After(turn, a, n).None? {
      assert n > 0;
      SectionTurns(m, want, a, end, n - 1);
    }
    if NoWrap(end) {
      SectionsEnd(m, want, a, end);
    }
  }

  /** The loop passes over the file at a and goes on. */
  predicate Passes(m: Mem, want: Selector, a: Addr, eov: Addr) {
    a < eov && Eof(m, a) <= eov && !Selects(m, want, a)
  }

  /** The file loop from a comes to f after n advances. */
  ghost predicate Reaches(m: Mem, want: Selector, a: Addr, eov: Addr, f: Addr, n: nat)
    decreases n
  {
    if n == 0 then a == f
    else Passes(m, want, a, eov) && Reaches(m, want, Up(Eof(m, a), 8), eov, f, n - 1)
  }

  /** A file of size zero that the loop comes to and would pass over. */
  ghost predicate StuckAt(m: Mem, want: Selector, a: Addr, eov: Addr, f: Addr, n: nat) {
    Reaches(m, want, a, eov, f, n) && Passes(m, want, f, eov) && FileSize(m, f) == 0
  }

  lemma NextFile(m: Mem, want: Selector, a: Addr, eov: Addr)
    requires NoWrap(eov) && a % 8 == 0 && Passes(m, want, a, eov)
    ensures var next := Up(Eof(m, a), 8);
            && Eof(m, a) == a + FileSize(m, a)
            && next % 8 == 0 && Eof(m, a) <= next < Eof(m, a) + 8
            && (FileSize(m, a) == 0 ==> next == a)
            && (FileSize(m, a) > 0 ==> next >= a + 8)
  {
    hide FileSize, Selects, Up;
    UpIsLeastMultiple(Eof(m, a), 8);
    if FileSize(m, a) == 0 {
      UpOfMultiple(a, 8);
    } else {
      AlignedAbove(a, Up(Eof(m, a), 8));
    }
  }

  lemma {:induction false} StuckNeverStops(m: Mem, want: Selector, a: Addr, eov: Addr, f: Addr, n: nat, fuel: nat)
    requires NoWrap(eov) && a % 8 == 0 && StuckAt(m, want, a, eov, f, n)
    ensures FileWalk(m, want, a, eov, fuel).None?
    decreases fuel
  {
    if fuel > 0 {
      NextFile(m, want, a, eov);
      var next := Up(Eof(m, a), 8);
      StuckNeverStops(m, want, next, eov, f, if n == 0 then 0 else n - 1, fuel - 1);
    }
  }

  function FileBound(a: Addr, eov: Addr): nat {
    if a < eov then (eov - a) / 8 + 1 else 0
  }

  lemma {:induction false} UnstuckStops(m: Mem, want: Selector, a: Addr, eov: Addr)
    requires NoWrap(eov) && a % 8 == 0
    requires forall f: Addr, n: nat :: !StuckAt(m, want, a, eov, f, n)
    ensures FileWalk(m, want, a, eov, FileBound(a, eov)).Some?
    decreases FileBound(a, eov)
  {
    if Passes(m, want, a, eov) {
      NextFile(m, want, a, eov);
      assert !StuckAt(m, want, a, eov, a, 0);
      var next := Up(Eof(m, a), 8);
      forall f: Addr, n: nat
        ensures !StuckAt(m, want, next, eov, f, n)
      {
        assert !StuckAt(m, want, a, eov, f, n + 1);
      }
      UnstuckStops(m, want, next, eov);
      FileFuel(m, want, next, eov, FileBound(next, eov), FileBound(a, eov) - 1);
    }
  }

  function FileTurn(m: Mem, want: Selector, eov: Addr): Turn {
    (f: Addr) => if Passes(m, want, f, eov) then Some(Up(Eof(m, f), 8)) else None
  }

  lemma {:induction false} FileTurns(m: Mem, want: Selector, a: Addr, eov: Addr, fuel: nat)
    ensures FileWalk(m, want, a, eov, fuel).Some? <==> After(FileTurn(m, want, eov), a, fuel + 1).None?
    decreases fuel
  {
    hide FileSize, Selects, Wrap64, Up;
    var turn := FileTurn(m, want, eov);
    assert turn(a) == if Passes(m, want, a, eov) then Some(Up(Eof(m, a), 8)) else None;
    if turn(a).Some? {
      if fuel > 0 {
        FileTurns(m, want, turn(a).value, eov, fuel - 1);
      } else {
        assert After(turn, turn(a).value, 0).Some?;
      }
    }
  }

  /** The file loop stops unless it comes to one address twice. In a volume that
      leaves room below the top of the 64-bit address space that is a file of size
      zero that it would pass over; without one it stops within (eov - a) / 8 + 1
      files. */
  lemma FileWalkStopsIffNotStuck(m: Mem, want: Selector, a: Addr, eov: Addr)
    ensures FileWalkStops(m, want, a, eov) <==> !Repeats(FileTurn(m, want, eov), a)
    ensures NoWrap(eov) && a % 8 == 0 ==>
              && (FileWalkStops(m, want, a, eov) <==> forall f: Addr, n: nat :: !StuckAt(m, want, a, eov, f, n))
              && (FileWalkStops(m, want, a, eov) ==> FileWalk(m, want, a, eov, FileBound(a, eov)).Some?)
  {
    hide FileWalk, FileTurn, Repeats, StuckAt;
    var turn := FileTurn(m, want, eov);
    StopsIffNeverRepeats(turn, a);
    if fuel: nat :| FileWalk(m, want, a, eov, fuel).Some? {
      FileTurns(m, want, a, eov, fuel);
    }
    if n: nat :| After(turn, a, n).None? {
      assert n > 0;
      FileTurns(m, want, a, eov, n - 1);
    }
    if NoWrap(eov) && a % 8 == 0 {
      StopsIffUnstuck(m, want, a, eov);
    }
  }

  lemma StopsIffUnstuck(m: Mem, want: Selector, a: Addr, eov: Addr)
    requires NoWrap(eov) && a % 8 == 0
    ensures FileWalkStops(m, want, a, eov) <==> forall f: Addr, n: nat :: !StuckAt(m, want, a, eov, f, n)
    ensures FileWalkStops(m, want, a, eov) ==> FileWalk(m, want, a, eov, FileBound(a, eov)).Some?
  {
    if FileWalkStops(m, want, a, eov) {
      var fuel: nat :| FileWalk(m, want, a, eov, fuel).Some?;
      forall f: Addr, n: nat
        ensures !StuckAt(m, want, a, eov, f, n)
      {
        if StuckAt(m, want, a, eov, f, n) {
          StuckNeverStops(m, want, a, eov, f, n, fuel);
        }
      }
    }
    if forall f: Addr, n: nat :: !StuckAt(m, want, a, eov, f, n) {
      UnstuckStops(m, want, a, eov);
    }
  }

  /** GetFileSection returns unless one of its loops comes to an address twice; in
      a volume that leaves room below the top of the 64-bit address space, unless
      it comes to a file of size zero that it would pass over. */
  lemma VolumeWalkStopsIffNotStuck(m: Mem, fv: Word, section: Byte, want: Selector)
    ensures var a, eov := FirstFile(m, fv), Eov(m, fv);
            VolumeWalkStops(m, fv, section, want)
            <==> && !Repeats(FileTurn(m, want, eov), a)
                 && (FileWalkStops(m, want, a, eov) ==>
                       var r := FileSearch(m, want, a, eov);
                       r.Hit? ==> !Repeats(SectionTurn(m, section, Eof(m, r.file)), Up(Body(r.file), 4)))
    ensures NoWrap(Eov(m, fv)) ==>
              (VolumeWalkStops(m, fv, section, want)
               <==> forall f: Addr, n: nat :: !StuckAt(m, want, FirstFile(m, fv), Eov(m, fv), f, n))
  {
    hide FileSize, SectionSize, SectionKind, FvLength, FvHeaderLength, SectionWalk, FileWalk, Selects, Up, Ptr,
         Repeats, StuckAt;
    var a, eov := FirstFile(m, fv), Eov(m, fv);
    UpIsLeastMultiple(fv + FvHeaderLength(m, fv), 8);
    FileWalkStopsIffNotStuck(m, want, a, eov);
    if FileWalkStops(m, want, a, eov) {
      var r := FileSearch(m, want, a, eov);
      if r.Hit? {
        SectionWalkTerminates(m, section, Up(Body(r.file), 4), Eof(m, r.file));
        if NoWrap(eov) {
          HitInside(m, want, a, eov, FileBound(a, eov));
        }
      }
    }
  }

  // ----- First match -----

  /** The i-th address the section loop comes to when nothing stops it before. */
  function Visited(m: Mem, a: Addr, i: nat): Addr
    decreases i
  {
    if i == 0 then a else Visited(m, Wrap64(a + SectionSize(m, a)), i - 1)
  }

  /** r is what is to be said of a walk that gets to s. */
  predicate SectionVerdict(m: Mem, want: Byte, s: Addr, end: Addr, r: Result) {
    match r.status
    case Success => s < end && WholeSection(m, s, end) && SectionKind(m, s) == want && r.section == Ptr(s)
    case NotFound => s >= end && r.section == 0
    case VolumeCorrupted => s < end && !WholeSection(m, s, end) && r.section == 0
    case InvalidParameter => false
  }

  /** The first n sections are whole and of other types, and the next decides. */
  predicate DecidedBy(m: Mem, want: Byte, a: Addr, end: Addr, n: nat, r: Result) {
    && (forall i: nat | i < n :: PassesSection(m, want, Visited(m, a, i), end))
    && SectionVerdict(m, want, Visited(m, a, n), end, r)
  }

  lemma {:induction false} WalkDecided(m: Mem, want: Byte, a: Addr, end: Addr, n: nat, r: Result, fuel: nat)
    requires DecidedBy(m, want, a, end, n, r)
    ensures SectionWalk(m, want, a, end, fuel) == if n <= fuel then Some(r) else None
    decreases fuel
  {
    hide SectionSize, SectionKind, Wrap64, Ptr;
    if n > 0 {
      assert PassesSection(m, want, Visited(m, a, 0), end);
      if fuel > 0 {
        var next := Wrap64(a + SectionSize(m, a));
        forall i: nat | i < n - 1
          ensures PassesSection(m, want, Visited(m, next, i), end)
        {
          assert PassesSection(m, want, Visited(m, a, i + 1), end);
        }
        WalkDecided(m, want, next, end, n - 1, r, fuel - 1);
      }
    }
  }

  lemma {:induction false} WalkDecides(m: Mem, want: Byte, a: Addr, end: Addr, fuel: nat) returns (n: nat)
    requires SectionWalk(m, want, a, end, fuel).Some?
    ensures DecidedBy(m, want, a, end, n, SectionWalk(m, want, a, end, fuel).value)
    decreases fuel
  {
    hide SectionSize, SectionKind, Wrap64, Ptr;
    if PassesSection(m, want, a, end) {
      var next := Wrap64(a + SectionSize(m, a));
      var k := WalkDecides(m, want, next, end, fuel - 1);
      n := k + 1;
      forall i: nat | i < n
        ensures PassesSection(m, want, Visited(m, a, i), end)
      {
        if i > 0 {
          assert Visited(m, a, i) == Visited(m, next, i - 1);
        }
      }
    } else {
      n := 0;
    }
  }

  /** On arbitrary bytes r is the answer of FindSection if and only if it is the
      verdict on the first address, section by section, that is behind the end or
      holds a section that is not whole or of the wanted type. */
  lemma FindSectionIsFirstMatch(m: Mem, want: Byte, start: Addr, end: Addr, r: Result)
    requires SectionWalkStops(m, want, Up(start, 4), end)
    ensures SectionSearch(m, want, start, end) == r <==> exists n: nat :: DecidedBy(m, want, Up(start, 4), end, n, r)
  {
    hide SectionSize, SectionKind, SectionWalk, DecidedBy, Up;
    var a := Up(start, 4);
    var fuel: nat :| SectionWalk(m, want, a, end, fuel).Some?;
    assert SectionWalk(m, want, a, end, fuel) == Some(SectionSearch(m, want, start, end));
    var n := WalkDecides(m, want, a, end, fuel);
    if k: nat :| DecidedBy(m, want, a, end, k, r) {
      WalkDecided(m, want, a, end, k, r, k);
    }
  }

  /** r is what is to be said of a file loop that gets to f. */
  predicate FileVerdict(m: Mem, want: Selector, f: Addr, eov: Addr, r: FileResult) {
    match r
    case Hit(h) => f < eov && Eof(m, f) <= eov && Selects(m, want, f) && h == f
    case NoMore => f >= eov
    case Corrupt => f < eov && Eof(m, f) > eov
  }

  lemma {:induction false} FileWalkReaches(m: Mem, want: Selector, a: Addr, eov: Addr, fuel: nat)
      returns (f: Addr, n: nat)
    requires FileWalk(m, want, a, eov, fuel).Some?
    ensures Reaches(m, want, a, eov, f, n) && FileVerdict(m, want, f, eov, FileWalk(m, want, a, eov, fuel).value)
    decreases fuel
  {
    hide FileSize, Selects, Wrap64, Up;
    if Passes(m, want, a, eov) {
      var k;
      f, k := FileWalkReaches(m, want, Up(Eof(m, a), 8), eov, fuel - 1);
      n := k + 1;
    } else {
      f, n := a, 0;
    }
  }

  lemma {:induction false} ReachedFileDecides(m: Mem, want: Selector, a: Addr, eov: Addr, f: Addr, n: nat,
      r: FileResult)
    requires Reaches(m, want, a, eov, f, n) && FileVerdict(m, want, f, eov, r)
    ensures FileWalk(m, want, a, eov, n) == Some(r)
    decreases n
  {
    hide FileSize, Selects, Wrap64, Up;
    if n > 0 {
      ReachedFileDecides(m, want, Up(Eof(m, a), 8), eov, f, n - 1, r);
    }
  }

  /** On arbitrary bytes r is the answer of the file loop if and only if it is the
      verdict on the first file that it comes to and does not pass over. */
  lemma FileLoopIsFirstMatch(m: Mem, want: Selector, a: Addr, eov: Addr, r: FileResult)
    requires FileWalkStops(m, want, a, eov)
    ensures FileSearch(m, want, a, eov) == r
       <==> exists f: Addr, n: nat :: Reaches(m, want, a, eov, f, n) && FileVerdict(m, want, f, eov, r)
  {
    hide FileSize, Selects, FileWalk, FileVerdict, Reaches, Up;
    var fuel: nat :| FileWalk(m, want, a, eov, fuel).Some?;
    assert FileWalk(m, want, a, eov, fuel) == Some(FileSearch(m, want, a, eov));
    var f, n := FileWalkReaches(m, want, a, eov, fuel);
    if g: Addr, k: nat :| Reaches(m, want, a, eov, g, k) && FileVerdict(m, want, g, eov, r) {
      ReachedFileDecides(m, want, a, eov, g, k, r);
      assert FileWalk(m, want, a, eov, k) in {None, Some(FileSearch(m, want, a, eov))};
    }
  }

  // ----- Containment -----

  lemma {:induction false} HitInside(m: Mem, want: Selector, a: Addr, eov: Addr, fuel: nat)
    requires NoWrap(eov) && a % 8 == 0
    ensures var r := FileWalk(m, want, a, eov, fuel);
            r.Some? && r.value.Hit? ==>
              var f := r.value.file;
              && a <= f < eov && f % 8 == 0
              && Eof(m, f) == f + FileSize(m, f) <= eov
              && Selects(m, want, f)
    decreases fuel
  {
    if Passes(m, want, a, eov) && fuel > 0 {
      NextFile(m, want, a, eov);
      HitInside(m, want, Up(Eof(m, a), 8), eov, fuel - 1);
    }
  }

  /** Where the section loop finds a section: its 64-bit address. */
  lemma {:induction false} SectionFound(m: Mem, want: Byte, a: Addr, end: Addr, fuel: nat) returns (s: Addr)
    requires NoWrap(end)
    ensures var r := SectionWalk(m, want, a, end, fuel);
            r.Some? ==>
              if r.value.status == Success then a <= s && r.value.section == Ptr(s) && SectionAt(m, want, s, end)
              else r.value.section == 0
    decreases fuel
  {
    hide SectionSize, SectionKind, Ptr;
    s := a;
    if PassesSection(m, want, a, end) && fuel > 0 {
      s := SectionFound(m, want, Wrap64(a + SectionSize(m, a)), end, fuel - 1);
    }
  }

  /** A whole section of the wanted type lies at s, before end. */
  predicate SectionAt(m: Mem, want: Byte, s: int, end: int) {
    SectionKind(m, s) == want && SECTION_HEADER <= SectionSize(m, s) && s + SectionSize(m, s) <= end
  }

  /** Whatever the headers say, a section that is returned belongs to a selected
      file. The file lies inside the volume, if and only if it does not go on behind
      the 64-bit address space. If its header ends below the top of the 32-bit one,
      header and body of the section lie behind it and inside the file; and for a
      file that does not go on behind the top, only if. */
  lemma Containment(m: Mem, fv: Word, section: Byte, want: Selector)
    requires VolumeWalkStops(m, fv, section, want)
    ensures var r, eov := VolumeSearch(m, fv, section, want), Eov(m, fv);
            if r.status == Success then
              exists f: Addr ::
                FileSearch(m, want, FirstFile(m, fv), eov) == Hit(f) && Contained(m, fv, section, want, f, r)
            else r.section == 0
  {
    hide FileSize, Selects, SectionSize, SectionKind, FvLength, FvHeaderLength, SectionWalk, FileWalk, Contained,
         FirstFile;
    var a, eov := FirstFile(m, fv), Eov(m, fv);
    FileLoopIsFirstMatch(m, want, a, eov, FileSearch(m, want, a, eov));
    match FileSearch(m, want, a, eov)
    case Hit(f) =>
      SearchFindsOrNull(m, section, Body(f), Eof(m, f));
      if VolumeSearch(m, fv, section, want).status == Success {
        ContainedIn(m, fv, section, want, f);
      }
    case _ =>
  }

  /** In a volume in the address space that is an equivalence for every file. */
  lemma FittingContainment(m: Mem, fv: Word, section: Byte, want: Selector)
    requires Fits(m, fv) && VolumeWalkStops(m, fv, section, want)
    requires VolumeSearch(m, fv, section, want).status == Success
    ensures exists f: Word ::
              var r, eof := VolumeSearch(m, fv, section, want), f + FileSize(m, f);
              && FileSearch(m, want, FirstFile(m, fv), Eov(m, fv)) == Hit(f) && Selects(m, want, f)
              && fv + FvHeaderLength(m, fv) <= f && eof <= fv + FvLength(m, fv)
              && (f + FILE_HEADER <= r.section && SectionAt(m, section, r.section, eof) <==> f + FILE_HEADER < SPACE)
  {
    hide FileSize, Selects, FvLength, FvHeaderLength, FileWalk, FirstFile, SectionAt, VolumeWalkStops, VolumeSearch;
    Containment(m, fv, section, want);
    NoWraps(fv + FvLength(m, fv));
  }

  ghost predicate Contained(m: Mem, fv: Word, section: Byte, want: Selector, f: Addr, r: Result) {
    var eof, eov := f + FileSize(m, f), Eov(m, fv);
    && Selects(m, want, f) && f < eov
    && (eof <= eov <==> eof < TWO64)
    && (NoWrap(eov) ==> fv + FvHeaderLength(m, fv) <= f && eof <= eov)
    && (f + FILE_HEADER < SPACE ==>
          exists s: Addr :: r.section == Ptr(s) && f + FILE_HEADER <= s && SectionAt(m, section, s, eof))
    && (f < SPACE && eof <= SPACE ==>
          (f + FILE_HEADER <= r.section && SectionAt(m, section, r.section, eof) <==> f + FILE_HEADER < SPACE))
  }

  lemma ContainedIn(m: Mem, fv: Word, section: Byte, want: Selector, f: Addr)
    requires VolumeWalkStops(m, fv, section, want)
    requires FileSearch(m, want, FirstFile(m, fv), Eov(m, fv)) == Hit(f)
    requires f < Eov(m, fv) && Eof(m, f) <= Eov(m, fv) && Selects(m, want, f)
    requires VolumeSearch(m, fv, section, want).status == Success
    ensures Contained(m, fv, section, want, f, VolumeSearch(m, fv, section, want))
  {
    hide FileSize, Selects, SectionSize, SectionKind, FvLength, FvHeaderLength, SectionWalk, FileWalk, Up, Ptr,
         Wrap64, SectionAt;
    var a, eov, eof := FirstFile(m, fv), Eov(m, fv), f + FileSize(m, f);
    UpIsLeastMultiple(fv + FvHeaderLength(m, fv), 8);
    NoWraps(eof);
    if NoWrap(eov) {
      var fuel: nat :| FileWalk(m, want, a, eov, fuel).Some?;
      assert FileWalk(m, want, a, eov, fuel) == Some(FileSearch(m, want, a, eov));
      HitInside(m, want, a, eov, fuel);
    }
    if f + FILE_HEADER < SPACE {
      NoWraps(f);
      NoWraps(f + FILE_HEADER);
      UpIsLeastMultiple(Body(f), 4);
      var start := Up(Body(f), 4);
      var fuel: nat :| SectionWalk(m, section, start, eof, fuel).Some?;
      assert SectionWalk(m, section, start, eof, fuel) == Some(SectionSearch(m, section, Body(f), eof));
      var s := SectionFound(m, section, start, eof, fuel);
      assert VolumeSearch(m, fv, section, want).section == Ptr(s);
      SectionBefore(m, section, s, eof);
      if eof <= SPACE {
        NoWraps(s);
      }
    }
  }

  lemma SectionBefore(m: Mem, want: Byte, s: Addr, end: int)
    requires SectionAt(m, want, s, end)
    ensures s < end
  {
    hide SectionSize, SectionKind;
  }

  lemma SearchFindsOrNull(m: Mem, want: Byte, start: Addr, end: Addr)
    requires SectionWalkStops(m, want, Up(start, 4), end)
    ensures SectionSearch(m, want, start, end).status != Success ==> SectionSearch(m, want, start, end).section == 0
  {
    hide SectionSize, SectionKind, SectionWalk, Up;
    FindSectionIsFirstMatch(m, want, start, end, SectionSearch(m, want, start, end));
  }

  // ----- The two walkers -----

  /** PeiFfsFindNextFile from a NULL handle, then PeiFfsFindSectionData. */
  ghost function ServiceSearch(m: Mem, fv: Word, section: Byte, kind: Byte, unset: Addr): Result
    requires ServiceStops(m, fv, section, kind, unset)
  {
    var n := FindNext(m, kind, fv, 0, unset);
    if n.status == Success then SectionData(m, section, n.handle) else Result(n.status, 0)
  }

  ghost predicate ServiceStops(m: Mem, fv: Word, section: Byte, kind: Byte, unset: Addr) {
    && (fv != 0 ==> NextStops(m, kind, fv, 0, unset))
    && var n := FindNext(m, kind, fv, 0, unset);
       n.status == Success && n.handle != 0 ==> SectionDataStops(m, section, n.handle)
  }

  /** The first file of the type, if there is one, starts in the 32-bit address
      space, and not at NULL. */
  ghost predicate HitInReach(m: Mem, fv: Word, kind: Byte) {
    var want := Selector(kind, None);
    FileWalkStops(m, want, FirstFile(m, fv), Eov(m, fv)) ==>
      var r := FileSearch(m, want, FirstFile(m, fv), Eov(m, fv));
      r.Hit? ==> 0 < r.file < SPACE
  }

  lemma FittingHitInReach(m: Mem, fv: Word, kind: Byte)
    requires Fits(m, fv) && fv != 0
    ensures HitInReach(m, fv, kind)
  {
    hide FileSize, FileKind, FvLength, FvHeaderLength, FileWalk, Up, GuidAt;
    var want := Selector(kind, None);
    var a, eov := FirstFile(m, fv), Eov(m, fv);
    UpIsLeastMultiple(fv + FvHeaderLength(m, fv), 8);
    if FileWalkStops(m, want, a, eov) {
      var fuel: nat :| FileWalk(m, want, a, eov, fuel).Some?;
      assert FileWalk(m, want, a, eov, fuel) == Some(FileSearch(m, want, a, eov));
      HitInside(m, want, a, eov, fuel);
    }
  }

  /** Then, and so in every volume in the address space, both walkers return on the
      same volumes, with the same answer. */
  lemma WalkersAgree(m: Mem, fv: Word, section: Byte, kind: Byte, unset: Addr)
    requires fv != 0
    ensures Fits(m, fv) ==> HitInReach(m, fv, kind)
    ensures HitInReach(m, fv, kind) ==>
              && (ServiceStops(m, fv, section, kind, unset) <==> VolumeWalkStops(m, fv, section, Selector(kind, None)))
              && (ServiceStops(m, fv, section, kind, unset) ==>
                    ServiceSearch(m, fv, section, kind, unset) == VolumeSearch(m, fv, section, Selector(kind, None)))
  {
    hide FileSize, FileKind, SectionSize, SectionKind, FvLength, FvHeaderLength, SectionWalk, FileWalk, Up, GuidAt;
    if Fits(m, fv) {
      FittingHitInReach(m, fv, kind);
    }
  }

  /** Where the first file starts at a multiple of 2^32 its handle is NULL, and
      the walkers never agree. */
  lemma NullHandleDisagrees(m: Mem, fv: Word, section: Byte, kind: Byte, unset: Addr, f: Addr)
    requires fv != 0 && Ptr(f) == 0
    requires FileWalkStops(m, Selector(kind, None), FirstFile(m, fv), Eov(m, fv))
    requires FileSearch(m, Selector(kind, None), FirstFile(m, fv), Eov(m, fv)) == Hit(f)
    ensures ServiceStops(m, fv, section, kind, unset)
    ensures ServiceSearch(m, fv, section, kind, unset) == Result(InvalidParameter, 0)
    ensures VolumeWalkStops(m, fv, section, Selector(kind, None)) ==>
              VolumeSearch(m, fv, section, Selector(kind, None)).status != InvalidParameter
  {
    hide FileSize, FileKind, SectionSize, SectionKind, FvLength, FvHeaderLength, SectionWalk, FileWalk, Up, GuidAt,
         Ptr;
    var end := Eof(m, f);
    if SectionWalkStops(m, section, Up(Body(f), 4), end) {
      FindSectionIsFirstMatch(m, section, Body(f), end, SectionSearch(m, section, Body(f), end));
    }
  }

  /** On arbitrary bytes, what the services find GetFileSection finds too, unless
      the file goes on behind the 64-bit address space. */
  lemma ServiceFindsSame(m: Mem, fv: Word, section: Byte, kind: Byte, unset: Addr)
    requires fv != 0 && ServiceStops(m, fv, section, kind, unset)
    requires ServiceSearch(m, fv, section, kind, unset).status == Success
    requires var f := FileSearch(m, Selector(kind, None), FirstFile(m, fv), Eov(m, fv)).file; f + FileSize(m, f) < TWO64
    ensures VolumeWalkStops(m, fv, section, Selector(kind, None))
    ensures VolumeSearch(m, fv, section, Selector(kind, None)) == ServiceSearch(m, fv, section, kind, unset)
  {
    hide FileSize, FileKind, SectionSize, SectionKind, FvLength, FvHeaderLength, SectionWalk, FileWalk, Up, GuidAt,
         DecidedBy;
    var want := Selector(kind, None);
    var a, eov := FirstFile(m, fv), Eov(m, fv);
    var f := FileSearch(m, want, a, eov).file;
    SameHeader(m, f);
    var start, r := Body(f), ServiceSearch(m, fv, section, kind, unset);
    FindSectionIsFirstMatch(m, section, start, Eof(m, Ptr(f)), r);
    var n: nat :| DecidedBy(m, section, Up(start, 4), Eof(m, Ptr(f)), n, r);
    LaterEndSameMatch(m, section, Up(start, 4), Eof(m, Ptr(f)), Eof(m, f), n, r);
    WalkDecided(m, section, Up(start, 4), Eof(m, f), n, r, n);
    FindSectionIsFirstMatch(m, section, start, Eof(m, f), r);
  }

  lemma SameHeader(m: Mem, f: Addr)
    requires f + FileSize(m, f) < TWO64
    ensures FileSize(m, Ptr(f)) == FileSize(m, f) && Body(Ptr(f)) == Body(f)
    ensures Eof(m, Ptr(f)) <= Eof(m, f)
  {
    hide Read, Read8;
    PtrAgain(f);
    PtrAtMost(f);
    var p: int := Ptr(f);
    SameNumber(m, f, 20, 3);
    NoWraps(p + FileSize(m, p));
    NoWraps(f + FileSize(m, f));
    hide FileSize, Ptr;
  }

  lemma PtrAgain(f: Addr)
    ensures Ptr(Ptr(f)) == Ptr(f)
  {
  }

  lemma PtrAtMost(f: Addr)
    ensures Ptr(f) <= f
  {
    PtrIs(f);
  }

  lemma SamePtr(m: Mem, a: int, k: nat)
    ensures Read8(m, Ptr(a) + k) == Read8(m, a + k)
  {
    PtrSum(a, k);
  }

  /** A section found before one end is found before a later end. */
  lemma LaterEndSameMatch(m: Mem, want: Byte, a: Addr, end: Addr, later: Addr, n: nat, r: Result)
    requires DecidedBy(m, want, a, end, n, r) && r.status == Success && end <= later
    ensures DecidedBy(m, want, a, later, n, r)
  {
    hide SectionSize, SectionKind, Ptr, Wrap64;
    forall i: nat | i < n
      ensures PassesSection(m, want, Visited(m, a, i), later)
    {
      assert PassesSection(m, want, Visited(m, a, i), end);
    }
  }

  // ----- Continuing an enumeration -----

  /** The handle is a file of the wanted type inside the volume, as an earlier
      call returns it. */
  ghost predicate IsHandle(m: Mem, kind: Byte, fv: Word, handle: Word) {
    && handle != 0 && handle % 8 == 0 && handle < Eov(m, fv)
    && Eof(m, handle) <= Eov(m, fv) && FileKind(m, handle) == kind
  }

  /** Continued from the handle's address, the next file lies behind the last one,
      so feeding handles back ends, in a volume that ends in the 32-bit address
      space; behind its top the handle is cut to 32 bits. For a file of size zero
      the same handle is returned again. */
  lemma NextHandleAdvances(m: Mem, kind: Byte, fv: Word, handle: Word)
    requires fv != 0 && IsHandle(m, kind, fv, handle) && NextStops(m, kind, fv, handle, handle)
    ensures var n := FindNext(m, kind, fv, handle, handle);
            && (FileSize(m, handle) == 0 ==> n == Next(Success, handle))
            && (NoWrap(Eov(m, fv)) && n.status == Success && FileSize(m, handle) > 0 ==>
                  exists f: Addr ::
                    && n.handle == Ptr(f) && handle + 8 <= f && f + FileSize(m, f) <= Eov(m, fv)
                    && (f < SPACE ==> IsHandle(m, kind, fv, n.handle)))
  {
    hide FvLength, FvHeaderLength, FileSize, FileKind, FileWalk, Up, Ptr;
    var want, eov := Selector(kind, None), Eov(m, fv);
    var next := handle + FileSize(m, handle);
    UpIsLeastMultiple(next, 8);
    var a := NextStart(m, fv, handle, handle);
    if FileSize(m, handle) == 0 {
      MultipleUnique(a, handle, 8);
      assert FileWalk(m, want, a, eov, 0) == Some(Hit(handle)) by { HitAtOnce(m, want, a, eov); }
      NoWraps(handle);
    } else if NoWrap(eov) {
      var fuel: nat :| FileWalk(m, want, a, eov, fuel).Some?;
      assert FileWalk(m, want, a, eov, fuel) == Some(FileSearch(m, want, a, eov));
      HitInside(m, want, a, eov, fuel);
      var r := FileSearch(m, want, a, eov);
      if r.Hit? {
        NoWraps(r.file);
        AlignedAbove(handle, r.file);
      }
    }
  }

  lemma AlignedAbove(x: int, y: int)
    requires x % 8 == 0 && y % 8 == 0 && y > x
    ensures y >= x + 8
  {
  }

  lemma HitAtOnce(m: Mem, want: Selector, a: Addr, eov: Addr)
    requires a < eov && Eof(m, a) <= eov && Selects(m, want, a)
    ensures FileWalk(m, want, a, eov, 0) == Some(Hit(a))
  {
  }

  /** The code continues from a variable it never set. The walk starts where it
      is meant to exactly when that variable, plus the size of the handle's file,
      falls into the 8 bytes that end at the next file. */
  lemma UnsetStartsRight(m: Mem, fv: Word, handle: Word, unset: Addr)
    requires handle != 0
    ensures var meant := NextStart(m, fv, handle, handle);
            NextStart(m, fv, handle, unset) == meant <==> meant - 8 < Wrap64(unset + FileSize(m, handle)) <= meant
  {
    hide FileSize, Wrap64;
    var size := FileSize(m, handle);
    var x := Wrap64(unset + size);
    NoWraps(handle + size);
    var meant := Up(handle + size, 8);
    UpIsLeastMultiple(x, 8);
    UpIsLeastMultiple(handle + size, 8);
    assert meant > 0;
    assert x > TWO64 - 8 ==> Up(x, 8) == 0;
    hide Up;
    if meant - 8 < x <= meant {
      MultipleUnique(Up(x, 8), meant, 8);
    }
  }

  /** From a start at or behind the end of the volume every file that follows the
      handle is missed. */
  lemma UnsetMissesFiles(m: Mem, kind: Byte, fv: Word, handle: Word, unset: Addr)
    requires fv != 0 && handle != 0 && Eov(m, fv) <= Wrap64(unset + FileSize(m, handle)) <= TWO64 - 8
    ensures NextStops(m, kind, fv, handle, unset) && FindNext(m, kind, fv, handle, unset) == Next(NotFound, handle)
  {
    hide FileSize, FvLength, Up, Wrap64, FileWalk;
    UpIsLeastMultiple(Wrap64(unset + FileSize(m, handle)), 8);
    NoMoreAtOnce(m, Selector(kind, None), NextStart(m, fv, handle, unset), Eov(m, fv));
  }

  lemma NoMoreAtOnce(m: Mem, want: Selector, a: Addr, eov: Addr)
    requires a >= eov
    ensures FileWalk(m, want, a, eov, 0) == Some(NoMore)
  {
  }

  /** r is what PeiFfsFindNextFile is to say of a walk that gets to f: the handle is
      kept unless a file is found. */
  ghost predicate NextVerdict(m: Mem, kind: Byte, f: Addr, eov: Addr, handle: Word, r: Next) {
    if f >= eov then r == Next(NotFound, handle)
    else if Eof(m, f) > eov then r == Next(VolumeCorrupted, handle)
    else FileKind(m, f) == kind && r == Next(Success, Ptr(f))
  }

  /** On arbitrary bytes r is the answer of PeiFfsFindNextFile if and only if it is the
      verdict on the first file that it comes to and does not pass over; a NULL
      volume is refused. */
  lemma FindNextIsFirstMatch(m: Mem, kind: Byte, fv: Word, handle: Word, unset: Addr, r: Next)
    requires fv != 0 ==> NextStops(m, kind, fv, handle, unset)
    ensures var a, eov := NextStart(m, fv, handle, unset), Eov(m, fv);
            FindNext(m, kind, fv, handle, unset) == r
            <==> if fv == 0 then r == Next(InvalidParameter, handle)
                 else exists f: Addr, n: nat ::
                   Reaches(m, Selector(kind, None), a, eov, f, n) && NextVerdict(m, kind, f, eov, handle, r)
  {
    hide FileWalk, Reaches, NextStart, Eov, NextVerdict;
    if fv != 0 {
      var want, a, eov := Selector(kind, None), NextStart(m, fv, handle, unset), Eov(m, fv);
      var found := FileSearch(m, want, a, eov);
      FileLoopIsFirstMatch(m, want, a, eov, found);
      var f: Addr, n: nat :| Reaches(m, want, a, eov, f, n) && FileVerdict(m, want, f, eov, found);
      VerdictsAgree(m, kind, f, eov, handle, found);
      assert NextVerdict(m, kind, f, eov, handle, FindNext(m, kind, fv, handle, unset));
      if g: Addr, k: nat :| Reaches(m, want, a, eov, g, k) && NextVerdict(m, kind, g, eov, handle, r) {
        var file := FileOf(m, kind, g, eov, handle, r);
        ReachedFileDecides(m, want, a, eov, g, k, file);
        assert FileWalk(m, want, a, eov, k) in {None, Some(FileSearch(m, want, a, eov))};
      }
    }
  }

  function NextOf(r: FileResult, handle: Word): Next {
    match r
    case Hit(f) => Next(Success, Ptr(f))
    case NoMore => Next(NotFound, handle)
    case Corrupt => Next(VolumeCorrupted, handle)
  }

  lemma VerdictsAgree(m: Mem, kind: Byte, f: Addr, eov: Addr, handle: Word, r: FileResult)
    requires FileVerdict(m, Selector(kind, None), f, eov, r)
    ensures NextVerdict(m, kind, f, eov, handle, NextOf(r, handle))
  {
    hide FileKind, Eof, Ptr;
  }

  lemma FileOf(m: Mem, kind: Byte, f: Addr, eov: Addr, handle: Word, r: Next) returns (file: FileResult)
    requires NextVerdict(m, kind, f, eov, handle, r)
    ensures FileVerdict(m, Selector(kind, None), f, eov, file) && r == NextOf(file, handle)
  {
    hide FileKind, Eof, Ptr;
    file := if f >= eov then NoMore else if Eof(m, f) > eov then Corrupt else Hit(f);
  }

  // ----- Entry points -----

  /** A TE section at s: a PE image pe of which the first n bytes are stripped, behind
      a header of 40 bytes that gives n at offset 6 and the entry point e at 8. */
  ghost predicate TeSectionAt(m: Mem, s: Word, header: seq<Byte>, pe: seq<Byte>, n: nat, e: nat) {
    && |header| == 40 && header[6..8] == Bytes(n, 2) && header[8..12] == Bytes(e, 4)
    && n < 0x1_0000 && n <= e < |pe| && e < SPACE
    && Lies(m, s + 4, header + pe[n..])
  }

  /** GetTeEntryPoint returns where the byte at the entry point of the image lies. */
  lemma TeEntryIsEntry(m: Mem, fv: Word, want: Selector, header: seq<Byte>, pe: seq<Byte>, n: nat, e: nat)
    requires VolumeWalkStops(m, fv, 0x12, want)
    requires var r := VolumeSearch(m, fv, 0x12, want);
             r.status == Success && r.section != 0 && TeSectionAt(m, r.section, header, pe, n, e)
    ensures var s, r := VolumeSearch(m, fv, 0x12, want).section, TeSearch(m, fv, want);
            && r == Result(Success, Ptr(s + 4 + 40 + (e - n)))
            && Read8(m, r.section) == pe[e]
  {
    hide VolumeWalkStops, VolumeSearch, Ptr, Lies, Read, Read8, Bytes;
    var s := VolumeSearch(m, fv, 0x12, want).section;
    TeFields(m, s, header, pe, n, e);
    TeEntryAt(m, s, n, e);
    TeByte(m, s, header, pe, n, e);
  }

  lemma TeFields(m: Mem, s: Word, header: seq<Byte>, pe: seq<Byte>, n: nat, e: nat)
    requires TeSectionAt(m, s, header, pe, n, e)
    ensures Read16(m, s + 10) == n && Read32(m, s + 12) == e
  {
    hide Lies, Read, Bytes;
    Widths();
    LiesParts(m, s + 4, header, pe[n..]);
    assert header == header[..6] + header[6..8] + header[8..12] + header[12..];
    LiesParts(m, s + 4, header[..6] + header[6..8] + header[8..12], header[12..]);
    LiesParts(m, s + 4, header[..6] + header[6..8], header[8..12]);
    LiesParts(m, s + 4, header[..6], header[6..8]);
    LiesNumber(m, s + 10, n, 2);
    LiesNumber(m, s + 12, e, 4);
  }

  lemma TeEntryAt(m: Mem, s: Word, n: nat, e: nat)
    requires Read16(m, s + 10) == n && Read32(m, s + 12) == e && e < SPACE
    ensures TeEntry(m, s) == Ptr(s + 4 + 40 + (e - n))
  {
    hide Read, Ptr;
    var te := Ptr(s + SECTION_HEADER);
    SameNumber(m, s + 4, 6, 2);
    SameNumber(m, s + 4, 8, 4);
    var k: int := n;
    PtrSum(s + 4, -k);
    PtrSum(s + 4 - k, (40 + e) % SPACE);
    PtrIs(40 + e);
    PtrSum(40 + e, s + 4 - k);
    PtrSum((40 + e) % SPACE, s + 4 - k);
  }

  lemma SameNumber(m: Mem, a: int, c: nat, n: nat)
    ensures Read(m, Ptr(a) + c, n) == Read(m, a + c, n)
  {
    hide Read, Read8, Ptr;
    var x, y := Ptr(a) + c, a + c;
    forall k: nat | k < n
      ensures SameByte(m, x, m, y, k)
    {
      SamePtr(m, a, c + k);
    }
    ReadSame(m, x, m, y, n);
  }

  lemma TeByte(m: Mem, s: Word, header: seq<Byte>, pe: seq<Byte>, n: nat, e: nat)
    requires TeSectionAt(m, s, header, pe, n, e)
    ensures Read8(m, Ptr(s + 4 + 40 + (e - n))) == pe[e]
  {
    hide Read8, Ptr, Bytes;
    var all, i := header + pe[n..], 40 + (e - n);
    assert LiesAt(m, s + 4, all, i) && all[i] == pe[e];
    SamePtr(m, s + 4 + i, 0);
  }

  // ----- The a priori file -----

  /** The name of the file that GetAprioriFile looks for. */
  lemma AprioriName()
    ensures Text(APRIORI_NAME) == "1b45cc0a-156a-428a-af62-49864da0e6e6"
  {
    AprioriNumbers();
    AprioriOctets();
    hide Hex, Big2, Big4, HexDigit;
  }

  lemma AprioriNumbers()
    ensures Hex(Big4(APRIORI_NAME.data1)) == "1b45cc0a"
    ensures Hex(Big2(APRIORI_NAME.data2)) == "156a" && Hex(Big2(APRIORI_NAME.data3)) == "428a"
  {
    AprioriBytes();
    hide Hex, Big2, Big4;
    Hex4(0x1b, 0x45, 0xcc, 0x0a);
    Hex2(0x15, 0x6a);
    Hex2(0x42, 0x8a);
  }

  lemma AprioriBytes()
    ensures Big4(0x1b45cc0a) == [0x1b, 0x45, 0xcc, 0x0a]
    ensures Big2(0x156a) == [0x15, 0x6a] && Big2(0x428a) == [0x42, 0x8a]
  {
    assert 0x1b45cc0a / 0x100_0000 == 0x1b && 0x1b45cc0a / 0x1_0000 == 0x1b45;
    assert 0x1b45cc0a / 0x100 == 0x1b45cc;
  }

  lemma AprioriOctets()
    ensures Hex(APRIORI_NAME.data4[..2]) == "af62" && Hex(APRIORI_NAME.data4[2..]) == "49864da0e6e6"
  {
    hide Hex;
    var d := APRIORI_NAME.data4;
    assert d[..2] == [0xaf, 0x62] && d[2..] == [0x49, 0x86, 0x4d, 0xa0] + [0xe6, 0xe6];
    HexSplit([0x49, 0x86, 0x4d, 0xa0], [0xe6, 0xe6]);
    Hex2(0xaf, 0x62);
    Hex4(0x49, 0x86, 0x4d, 0xa0);
    Hex2(0xe6, 0xe6);
  }

  lemma Hex2(a: Byte, b: Byte)
    ensures Hex([a, b]) == [HexDigit(a / 16), HexDigit(a % 16), HexDigit(b / 16), HexDigit(b % 16)]
  {
    hide HexDigit;
    assert [a, b][1..] == [b] && [b][1..] == [];
    assert Hex([b]) == [HexDigit(b / 16), HexDigit(b % 16)] + Hex([]);
  }

  lemma Hex4(a: Byte, b: Byte, c: Byte, d: Byte)
    ensures Hex([a, b, c, d])
         == [HexDigit(a / 16), HexDigit(a % 16), HexDigit(b / 16), HexDigit(b % 16),
             HexDigit(c / 16), HexDigit(c % 16), HexDigit(d / 16), HexDigit(d % 16)]
  {
    hide HexDigit;
    HexSplit([a, b], [c, d]);
    Hex2(a, b);
    Hex2(c, d);
    assert [a, b, c, d] == [a, b] + [c, d];
  }

  /** It answers the body of the first raw section of the first free-form file of that
      name. */
  lemma AprioriIsRawBody(m: Mem, fv: Word, name: Guid)
    requires Text(name) == "1b45cc0a-156a-428a-af62-49864da0e6e6"
    requires VolumeWalkStops(m, fv, 0x19, Selector(0x02, Some(name)))
    ensures VolumeWalkStops(m, fv, SECTION_RAW, APRIORI_FILE)
    ensures var r := VolumeSearch(m, fv, 0x19, Selector(0x02, Some(name)));
            AprioriSearch(m, fv) == if r.section == 0 then r else Result(r.status, Ptr(r.section + 4))
  {
    hide VolumeWalkStops, VolumeSearch, Ptr, Text, Parse;
    AprioriName();
    ParseText(name);
    ParseText(APRIORI_NAME);
  }
}
