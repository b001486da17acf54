/** The PPI database: install, lookup and dispatch. */
module Ppi {
  import opened Memory
  import opened Words
  import opened Volume

  // Descriptor layout: flags, GUID pointer, PPI pointer.
  const DESCRIPTOR := 12
  const GUID_FIELD := 4
  const PPI_FIELD := 8

  const FLAG_PIC: nat := 0x1
  const FLAG_PPI: nat := 0x10
  const FLAG_TERMINATE_LIST: nat := 0x8000_0000

  /** The file in which CalcPeimFixup looks. */
  const PEIM_FILE: Selector := Selector(FILETYPE_PEIM, None)

  // ----- What install computes -----

  /** FixupPpi: the interface pointer, then the entry of the interface it now
      points to, then the GUID pointer. */
  function Fixup(m: Mem, d: Word, fix: Word): Mem {
    var ppi := Ptr(Read32(m, d + PPI_FIELD) + fix);
    var m1 := Write32(m, d + PPI_FIELD, ppi);
    var m2 := Write32(m1, ppi, Ptr(Read32(m1, ppi) + fix));
    Write32(m2, d + GUID_FIELD, Ptr(Read32(m2, d + GUID_FIELD) + fix))
  }

  /** Memory, pool and number of visible entries. */
  datatype Db = Db(mem: Mem, pool: seq<Word>, count: nat) {
    ghost predicate Valid() {
      count <= |pool|
    }

    /** The visible entries. */
    function Entries(): seq<Word>
      requires count <= |pool|
    {
      pool[..count]
    }
  }

  datatype Installed = Installed(db: Db, status: Status)

  /** The loop of PeiInstallPpi from descriptor d and pool slot idx on; `last` is
      the count to roll back to and `lookup` what CalcPeimFixup answers. */
  function InstallLoop(m: Mem, pool: seq<Word>, last: nat, idx: nat, d: Word, fix: Word, lookup: Result): (r: Installed)
    requires idx < |pool|
    decreases |pool| - idx
  {
    var flags := Read32(m, d);
    if !Bit(flags, FLAG_PPI) then Installed(Db(m, pool, last), InvalidParameter)
    else if fix == 0 && Bit(flags, FLAG_PIC) && lookup.status != Success
    then Installed(Db(m, pool, last), lookup.status)
    else
      var fix' := if fix == 0 && Bit(flags, FLAG_PIC) then lookup.section else fix;
      var pool' := pool[idx := d];
      var m' := Fixup(m, d, fix');
      if Bit(Read32(m', d), FLAG_TERMINATE_LIST) then Installed(Db(m', pool', idx + 1), Success)
      else if idx + 1 >= |pool| then Installed(Db(m', pool', last), NotFound)
      else InstallLoop(m', pool', last, idx + 1, Ptr(d + DESCRIPTOR), fix', lookup)
  }

  function Install(db: Db, list: Word, lookup: Result): (r: Installed)
    requires db.Valid()
  {
    if list == 0 then Installed(db, InvalidParameter)
    else if db.count >= |db.pool| then Installed(db, NotFound)
    else InstallLoop(db.mem, db.pool, db.count, db.count, list, 0, lookup)
  }

  // ----- The lookup that an install may need -----

  /** The search of CalcPeimFixup in the volume at fv returns. */
  ghost predicate Searchable(m: Mem, fv: Word) {
    VolumeWalkStops(m, fv, SECTION_FREEFORM_SUBTYPE_GUID, PEIM_FILE)
  }

  /** What CalcPeimFixup answers; of no account where it does not return. */
  ghost function Lookup(m: Mem, fv: Word): Result {
    if Searchable(m, fv) then VolumeSearch(m, fv, SECTION_FREEFORM_SUBTYPE_GUID, PEIM_FILE) else Result(NotFound, 0)
  }

  /** The install of the descriptors from d on, in a pool with room for `room` more
      entries, comes to a position-independent one. */
  predicate Consults(m: Mem, room: nat, d: Word)
    decreases room
  {
    var flags := Read32(m, d);
    && room > 0 && Bit(flags, FLAG_PPI)
    && (Bit(flags, FLAG_PIC) || (!Bit(flags, FLAG_TERMINATE_LIST) && Consults(m, room - 1, Ptr(d + DESCRIPTOR))))
  }

  /** PeiInstallPpi returns: if it needs the search, the search does. */
  ghost predicate InstallReturns(db: Db, list: Word, fv: Word)
    requires db.Valid()
  {
    list != 0 && Consults(db.mem, |db.pool| - db.count, list) ==> Searchable(db.mem, fv)
  }

  lemma ConsultsNext(m: Mem, room: nat, d: Word)
    requires room > 0 && Bit(Read32(m, d), FLAG_PPI) && !Bit(Read32(m, d), FLAG_TERMINATE_LIST)
    requires Consults(m, room - 1, Ptr(d + DESCRIPTOR))
    ensures Consults(m, room, d)
  {
  }

  lemma ConsultsNow(m: Mem, room: nat, d: Word)
    requires room > 0 && Bit(Read32(m, d), FLAG_PPI) && Bit(Read32(m, d), FLAG_PIC)
    ensures Consults(m, room, d)
  {
  }

  /** Shifting by 0 changes nothing, whatever the pointers are. */
  lemma FixupByZero(m: Mem, d: Word)
    ensures Fixup(m, d, 0) == m
  {
    hide Write, Read, Ptr;
    var e := Read32(m, d + PPI_FIELD);
    NoWraps(e);
    WriteSame(m, d + PPI_FIELD, 4);
    NoWraps(Read32(m, e));
    WriteSame(m, e, 4);
    NoWraps(Read32(m, d + GUID_FIELD));
    WriteSame(m, d + GUID_FIELD, 4);
  }

  // ----- What dispatch computes -----

  /** What a PPI's entry point may do: install descriptor lists and write to
      memory other than the pool. */
  datatype Action = InstallPpi(list: Word) | Poke(a: Word, b: Byte)

  ghost function Act(db: Db, action: Action, fv: Word): (r: Db)
    requires db.Valid()
    ensures r.Valid() && |r.pool| == |db.pool| && db.Entries() <= r.Entries()
  {
    match action
    case InstallPpi(list) =>
      InstallAppends(db, list, Lookup(db.mem, fv));
      Install(db, list, Lookup(db.mem, fv)).db
    case Poke(a, b) => db.(mem := db.mem[a := b])
  }

  /** The actions of one entry point, in order. */
  ghost function ActAll(db: Db, actions: seq<Action>, fv: Word): (r: Db)
    requires db.Valid()
    ensures r.Valid() && |r.pool| == |db.pool| && db.Entries() <= r.Entries()
    decreases |actions|
  {
    if actions == [] then db
    else
      var n := |actions| - 1;
      Act(ActAll(db, actions[..n], fv), actions[n], fv)
  }

  /** Every install among the actions returns. */
  ghost predicate ActsReturn(db: Db, actions: seq<Action>, fv: Word)
    requires db.Valid()
  {
    forall i: nat | i < |actions| && actions[i].InstallPpi? ::
      InstallReturns(ActAll(db, actions[..i], fv), actions[i].list, fv)
  }

  /** A call of an entry point: the descriptor, the interface passed to it and the
      address called. */
  datatype Call = Call(descriptor: Word, ppi: Word, entry: Word)

  function CallOf(m: Mem, d: Word): Call {
    var ppi := Read32(m, d + PPI_FIELD);
    Call(d, ppi, Read32(m, ppi))
  }

  datatype Dispatched = Dispatched(db: Db, calls: seq<Call>)

  /** What each entry point does: it depends on its index in the pool and on what
      it finds when it is called. */
  type Script = (nat, Db) -> seq<Action>

  /** The loop of DispatchPeims from pool slot idx on. */
  ghost function DispatchFrom(db: Db, idx: nat, script: Script, fv: Word): Dispatched
    requires db.Valid()
    decreases |db.pool| - idx
  {
    if idx >= db.count then Dispatched(db, [])
    else
      var rest := DispatchFrom(ActAll(db, script(idx, db), fv), idx + 1, script, fv);
      Dispatched(rest.db, [CallOf(db.mem, db.pool[idx])] + rest.calls)
  }

  /** Every entry point that the loop calls returns. */
  ghost predicate DispatchReturns(db: Db, idx: nat, script: Script, fv: Word)
    requires db.Valid()
    decreases |db.pool| - idx
  {
    idx < db.count ==>
      ActsReturn(db, script(idx, db), fv) && DispatchReturns(ActAll(db, script(idx, db), fv), idx + 1, script, fv)
  }

  /** The calls made are of the entries from number `first` on, each once and in order. */
  predicate Calls(calls: seq<Call>, entries: seq<Word>, first: nat) {
    && first + |calls| == |entries|
    && forall i | 0 <= i < |calls| :: calls[i].descriptor == entries[first + i]
  }

  lemma CallsMore(call: Call, calls: seq<Call>, entries: seq<Word>, first: nat)
    requires Calls(calls, entries, first + 1) && call.descriptor == entries[first]
    ensures Calls([call] + calls, entries, first)
  {
  }

  /** Whatever the entry points install while the loop runs, and whether or not
      it succeeds, each PPI of the final database is called exactly once, in
      installation order; no entry that was visible is lost. */
  lemma {:induction false} DispatchComplete(db: Db, idx: nat, script: Script, fv: Word)
    requires db.Valid() && idx <= db.count
    ensures var r := DispatchFrom(db, idx, script, fv);
            && r.db.Valid() && |r.db.pool| == |db.pool|
            && db.Entries() <= r.db.Entries()
            && Calls(r.calls, r.db.Entries(), idx)
    decreases |db.pool| - idx
  {
    hide ActAll, CallOf, Calls;
    if idx < db.count {
      var next := ActAll(db, script(idx, db), fv);
      DispatchComplete(next, idx + 1, script, fv);
      var rest := DispatchFrom(next, idx + 1, script, fv);
      assert rest.db.Entries()[idx] == next.Entries()[idx] == db.Entries()[idx]
          == CallOf(db.mem, db.pool[idx]).descriptor
        by { CallIs(db.mem, db.pool[idx]); }
      CallsMore(CallOf(db.mem, db.pool[idx]), rest.calls, rest.db.Entries(), idx);
    } else {
      assert Calls([], db.Entries(), idx) by { NoCalls(db.Entries()); }
    }
  }

  lemma NoCalls(entries: seq<Word>)
    ensures Calls([], entries, |entries|)
  {
  }

  // ----- What lookup computes -----

  /** CompareGuids on two GUIDs in memory. */
  predicate SameGuid(m: Mem, a: int, b: int) {
    Read64(m, a) == Read64(m, b) && Read64(m, a + 8) == Read64(m, b + 8)
  }

  predicate Matches(m: Mem, d: Word, guid: Word) {
    d != 0 && SameGuid(m, guid, Read32(m, d + GUID_FIELD))
  }

  /** The entries with the wanted GUID, in pool order. */
  function Matching(m: Mem, entries: seq<Word>, guid: Word): (r: seq<Word>)
    ensures |r| <= |entries|
  {
    if entries == [] then []
    else
      var n := |entries| - 1;
      Matching(m, entries[..n], guid) + if Matches(m, entries[n], guid) then [entries[n]] else []
  }

  datatype Located = Located(status: Status, descriptor: Word, ppi: Word)

  /** Instance k is the k-th entry with the wanted GUID. */
  function Locate(m: Mem, entries: seq<Word>, guid: Word, k: nat): Located {
    var ds := Matching(m, entries, guid);
    if k < |ds| then Located(Success, ds[k], Read32(m, ds[k] + PPI_FIELD)) else Located(NotFound, 0, 0)
  }

  lemma {:induction false} MatchingPrefix(m: Mem, entries: seq<Word>, guid: Word, n: nat)
    requires n <= |entries|
    ensures Matching(m, entries[..n], guid) <= Matching(m, entries, guid)
    decreases |entries|
  {
    hide Matches;
    if n == |entries| {
      assert entries[..n] == entries;
    } else {
      var k := |entries| - 1;
      MatchingPrefix(m, entries[..k], guid, n);
      assert entries[..k][..n] == entries[..n];
    }
  }

  /** The positions of the entries with the wanted GUID. */
  function Positions(m: Mem, entries: seq<Word>, guid: Word): set<nat> {
    set i: nat | i < |entries| && Matches(m, entries[i], guid)
  }

  /** The entry at position j is instance k: as many matching entries come before it. */
  predicate IsInstance(m: Mem, entries: seq<Word>, guid: Word, j: nat, k: nat) {
    j < |entries| && Matches(m, entries[j], guid) && |Positions(m, entries[..j], guid)| == k
  }

  lemma NoPositions(m: Mem, guid: Word)
    ensures Positions(m, [], guid) == {}
  {
  }

  lemma PositionsGrow(m: Mem, entries: seq<Word>, guid: Word)
    requires entries != []
    ensures var n := |entries| - 1;
            |Positions(m, entries, guid)|
            == |Positions(m, entries[..n], guid)| + if Matches(m, entries[n], guid) then 1 else 0
  {
    hide Matches;
    var n := |entries| - 1;
    assert Positions(m, entries, guid)
        == Positions(m, entries[..n], guid) + if Matches(m, entries[n], guid) then {n} else {};
  }

  /** PeiLocatePpi returns the one entry before which exactly `instance` entries
      match, and NOT_FOUND exactly when no more than that match at all. */
  lemma {:induction false} LocateFindsInstance(m: Mem, entries: seq<Word>, guid: Word, k: nat)
    ensures |Matching(m, entries, guid)| == |Positions(m, entries, guid)|
    ensures var r := Locate(m, entries, guid, k);
            if k < |Positions(m, entries, guid)| then
              r.status == Success && r.ppi == Read32(m, r.descriptor + PPI_FIELD)
              && exists j: nat :: IsInstance(m, entries, guid, j, k) && entries[j] == r.descriptor
            else r == Located(NotFound, 0, 0)
    decreases |entries|
  {
    hide Matches, Read32, Ptr, Positions;
    if entries == [] {
      assert Positions(m, entries, guid) == {} by { NoPositions(m, guid); }
    } else {
      var n := |entries| - 1;
      var front := entries[..n];
      LocateFindsInstance(m, front, guid, k);
      PositionsGrow(m, entries, guid);
      if k < |Positions(m, front, guid)| {
        var j: nat :| IsInstance(m, front, guid, j, k) && front[j] == Locate(m, front, guid, k).descriptor;
        assert front[..j] == entries[..j];
        assert IsInstance(m, entries, guid, j, k);
      } else if k < |Positions(m, entries, guid)| {
        assert IsInstance(m, entries, guid, n, k);
      }
    }
  }

  // ----- The PEI core -----

  class PeiCore {
    const bootFv: Word
    const ram: array<Byte>
    const pool: array<Word>
    var count: nat

    ghost predicate Valid()
      reads this
    {
      ram.Length == SPACE && count <= pool.Length
    }

    function State(): Db
      requires Valid()
      reads this, ram, pool
    {
      Db(ram[..], pool[..], count)
    }

    /** An empty database over a pool of maxCount slots. */
    constructor (bootFv: Word, ram: array<Byte>, maxCount: nat)
      requires ram.Length == SPACE
      ensures Valid() && count == 0 && pool.Length == maxCount && fresh(pool)
      ensures this.bootFv == bootFv && this.ram == ram
    {
      this.bootFv := bootFv;
      this.ram := ram;
      pool := new Word[maxCount];
      count := 0;
    }

    method CalcPeimFixup() returns (r: Result)
      requires Valid() && Searchable(ram[..], bootFv)
      ensures r == VolumeSearch(ram[..], bootFv, 0x18, Selector(0x06, None)) == Lookup(ram[..], bootFv)
    {
      r := GetFileSection(ram[..], bootFv, SECTION_FREEFORM_SUBTYPE_GUID, PEIM_FILE);
    }

    method FixupPpi(d: Word, fix: Word)
      requires Valid()
      modifies ram
      ensures ram[..] == Fixup(old(ram[..]), d, fix)
    {
      hide Write32, Read32, Ptr;
      var ppi := Ptr(Read32(ram[..], d + PPI_FIELD) + fix);
      Store32(ram, d + PPI_FIELD, ppi);
      Store32(ram, ppi, Ptr(Read32(ram[..], ppi) + fix));
      Store32(ram, d + GUID_FIELD, Ptr(Read32(ram[..], d + GUID_FIELD) + fix));
    }

    method PeiInstallPpi(ppiList: Word) returns (status: Status)
      requires Valid() && InstallReturns(State(), ppiList, bootFv)
      modifies this`count, ram, pool
      ensures Valid()
      ensures Installed(State(), status) == Install(old(State()), ppiList, Lookup(old(ram[..]), bootFv))
    {
      hide Fixup, Read32, Ptr, Searchable, Lookup, Bit, Consults;
      if ppiList == 0 {
        return InvalidParameter;
      }
      var idx := count;
      var lastCount := idx;
      if idx >= pool.Length {
        return NotFound;
      }
      ghost var before := ram[..];
      ghost var lookup := Lookup(before, bootFv);
      ghost var outcome := Install(State(), ppiList, lookup);
      var list: Word, fix: Word := ppiList, 0;
      while true
        invariant Valid() && idx == count < pool.Length
        invariant fix == 0 ==> ram[..] == before
        invariant fix == 0 && Consults(before, pool.Length - idx, list) ==> Searchable(before, bootFv)
        invariant InstallLoop(ram[..], pool[..], lastCount, idx, list, fix, lookup) == outcome
        invariant lastCount <= idx
        decreases pool.Length - idx
      {
        var flags := Read32(ram[..], list);
        if !Bit(flags, FLAG_PPI) {
          count := lastCount;
          return InvalidParameter;
        }
        if fix == 0 && Bit(flags, FLAG_PIC) {
          ConsultsNow(before, pool.Length - idx, list);
          var r := CalcPeimFixup();
          fix := r.section;
          if r.status != Success {
            count := lastCount;
            return r.status;
          }
        }
        pool[idx] := list;
        count := count + 1;
        if fix == 0 {
          FixupByZero(before, list);
        }
        FixupPpi(pool[idx], fix);
        if Bit(Read32(ram[..], list), FLAG_TERMINATE_LIST) {
          return Success;
        }
        idx := idx + 1;
        if idx >= pool.Length {
          count := lastCount;
          return NotFound;
        }
        if fix == 0 && Consults(before, pool.Length - idx, Ptr(list + DESCRIPTOR)) {
          ConsultsNext(before, pool.Length - idx + 1, list);
        }
        list := Ptr(list + DESCRIPTOR);
      }
    }

    method PeiLocatePpi(guid: Word, instance: nat, ppi: Word) returns (r: Located)
      requires Valid()
      ensures r == if guid == 0 || ppi == 0 then Located(InvalidParameter, 0, 0)
                   else Locate(ram[..], State().Entries(), guid, instance)
    {
      hide Matches, SameGuid, Read32, Read64;
      if guid == 0 || ppi == 0 {
        return Located(InvalidParameter, 0, 0);
      }
      ghost var entries := State().Entries();
      var tmpInstance := 0;
      var idx := 0;
      while idx < count
        invariant 0 <= idx <= count
        invariant tmpInstance == |Matching(ram[..], entries[..idx], guid)| <= instance
      {
        var d := pool[idx];
        assert entries[..idx + 1][..idx] == entries[..idx];
        if d == 0 {
          assert !Matches(ram[..], d, guid) by { MatchesMeans(ram[..], d, guid); }
        } else if !SameGuid(ram[..], guid, Read32(ram[..], d + GUID_FIELD)) {
          assert !Matches(ram[..], d, guid) by { MatchesMeans(ram[..], d, guid); }
        } else {
          assert Matches(ram[..], d, guid) by { MatchesMeans(ram[..], d, guid); }
          if tmpInstance != instance {
            tmpInstance := tmpInstance + 1;
          } else {
            MatchingPrefix(ram[..], entries, guid, idx + 1);
            return Located(Success, d, Read32(ram[..], d + PPI_FIELD));
          }
        }
        idx := idx + 1;
      }
      assert entries[..idx] == entries;
      return Located(NotFound, 0, 0);
    }

    /** A call of an entry point that takes the given actions. */
    method CallEntry(actions: seq<Action>)
      requires Valid() && ActsReturn(State(), actions, bootFv)
      modifies this`count, ram, pool
      ensures Valid()
      ensures State() == ActAll(old(State()), actions, bootFv)
    {
      hide Install, Lookup, InstallReturns;
      ghost var db := State();
      for i := 0 to |actions|
        invariant Valid()
        invariant State() == ActAll(db, actions[..i], bootFv)
      {
        assert actions[..i + 1][..i] == actions[..i];
        match actions[i]
        case InstallPpi(list) =>
          var _ := PeiInstallPpi(list);
        case Poke(a, b) =>
          ram[a] := b;
      }
      assert actions[..|actions|] == actions;
    }

    /** The calls that are made, in order. */
    method DispatchPeims(script: Script) returns (calls: seq<Call>)
      requires Valid() && DispatchReturns(State(), 0, script, bootFv)
      modifies this`count, ram, pool
      ensures Valid()
      ensures Dispatched(State(), calls) == DispatchFrom(old(State()), 0, script, bootFv)
      ensures Calls(calls, State().Entries(), 0)
    {
      hide ActAll, ActsReturn, Read32, Calls, CallOf, DispatchFrom;
      ghost var outcome := DispatchFrom(State(), 0, script, bootFv);
      DispatchComplete(State(), 0, script, bootFv);
      calls := [];
      var idx := 0;
      while idx < count
        invariant Valid() && idx <= count && DispatchReturns(State(), idx, script, bootFv)
        invariant outcome == Dispatched(DispatchFrom(State(), idx, script, bootFv).db,
                                        calls + DispatchFrom(State(), idx, script, bootFv).calls)
        decreases pool.Length - idx
      {
        DispatchStep(State(), idx, script, bootFv, calls);
        var tmpPpiDesc := pool[idx];
        var ppi := Read32(ram[..], tmpPpiDesc + PPI_FIELD);
        CallIs(ram[..], tmpPpiDesc);
        calls := calls + [Call(tmpPpiDesc, ppi, Read32(ram[..], ppi))];
        CallEntry(script(idx, State()));
        idx := idx + 1;
      }
      DispatchOver(State(), idx, script, bootFv);
    }
  }

  lemma CallIs(m: Mem, d: Word)
    ensures CallOf(m, d) == Call(d, Read32(m, d + PPI_FIELD), Read32(m, Read32(m, d + PPI_FIELD)))
  {
  }

  /** One turn of the loop, with the calls made before. */
  lemma DispatchStep(db: Db, idx: nat, script: Script, fv: Word, made: seq<Call>)
    requires db.Valid() && idx < db.count
    ensures var r := DispatchFrom(db, idx, script, fv);
            var rest := DispatchFrom(ActAll(db, script(idx, db), fv), idx + 1, script, fv);
            r.db == rest.db && made + r.calls == made + [CallOf(db.mem, db.pool[idx])] + rest.calls
  {
    hide ActAll, CallOf;
  }

  lemma DispatchOver(db: Db, idx: nat, script: Script, fv: Word)
    requires db.Valid() && idx >= db.count
    ensures DispatchFrom(db, idx, script, fv) == Dispatched(db, [])
  {
  }

  lemma MatchesMeans(m: Mem, d: Word, guid: Word)
    ensures Matches(m, d, guid) <==> d != 0 && SameGuid(m, guid, Read32(m, d + GUID_FIELD))
  {
  }

  /** Whatever it does to memory, an install keeps the visible entries, in their
      places, and adds consecutive descriptors behind them on success and nothing
      on failure. */
  lemma InstallAppends(db: Db, list: Word, lookup: Result)
    requires db.Valid()
    ensures var r := Install(db, list, lookup);
            && r.db.Valid() && |r.db.pool| == |db.pool|
            && db.Entries() <= r.db.Entries()
            && (r.status != Success ==> r.db.Entries() == db.Entries())
            && (r.status == Success ==> db.count < r.db.count)
            && forall i | db.count <= i < r.db.count :: r.db.pool[i] == Ptr(list + DESCRIPTOR * (i - db.count))
  {
    hide InstallLoop;
    if list != 0 && db.count < |db.pool| {
      LoopAppends(db.mem, db.pool, db.count, db.count, list, list, 0, lookup);
    }
  }

  lemma {:induction false} LoopAppends(m: Mem, pool: seq<Word>, last: nat, idx: nat, list: Word, d: Word,
      fix: Word, lookup: Result)
    requires last <= idx < |pool| && d == Ptr(list + DESCRIPTOR * (idx - last))
    requires forall i | last <= i < idx :: pool[i] == Ptr(list + DESCRIPTOR * (i - last))
    ensures var r := InstallLoop(m, pool, last, idx, d, fix, lookup);
            && |r.db.pool| == |pool| && r.db.pool[..last] == pool[..last]
            && (if r.status == Success then idx < r.db.count <= |pool| else r.db.count == last)
            && forall i | last <= i < r.db.count :: r.db.pool[i] == Ptr(list + DESCRIPTOR * (i - last))
    decreases |pool| - idx
  {
    hide Fixup, Read32, Ptr, Bit;
    var flags := Read32(m, d);
    var fix' := if fix == 0 && Bit(flags, FLAG_PIC) then lookup.section else fix;
    if idx + 1 < |pool| {
      PtrSum(list + DESCRIPTOR * (idx - last), DESCRIPTOR);
      LoopAppends(Fixup(m, d, fix'), pool[idx := d], last, idx + 1, list, Ptr(d + DESCRIPTOR), fix', lookup);
    }
  }
}
