/** 32-bit words stored in memory. */
module Words {
  import opened Memory

  /** x is one of the n bytes from a on. */
  predicate Within(x: int, a: int, n: nat) {
    Ptr(x - a) < n
  }

  /** The words at a and b share no byte. */
  predicate Apart(a: int, b: int) {
    Ptr(a - b) >= 4 && Ptr(b - a) >= 4
  }

  lemma FarApart(a: int, b: int)
    requires 4 <= a - b <= SPACE - 4 || 4 <= b - a <= SPACE - 4
    ensures Apart(a, b)
  {
    PtrNear(a - b);
    PtrNear(b - a);
  }

  /** Memory with the number v in the n bytes from a on, lowest byte first. */
  function Write(m: Mem, a: int, n: nat, v: nat): Mem
    decreases n, v
  {
    if n == 0 then m else Write(m[Ptr(a) := Mod(v, 0x100)], a + 1, n - 1, v / 0x100)
  }

  function Write32(m: Mem, a: int, v: Word): Mem {
    Write(m, a, 4, v)
  }

  lemma WithinRest(x: Word, a: int, n: nat)
    requires 0 < n <= SPACE
    ensures Within(x, a, n) <==> x == Ptr(a) || Within(x, a + 1, n - 1)
    ensures x == Ptr(a) ==> !Within(x, a + 1, n - 1)
  {
    var d: int := Ptr(x - a);
    PtrSum(x - a, -1);
    PtrSum(x - a, a);
    PtrNear(d - 1);
    PtrNear(x);
    PtrSum(a, -a);
    PtrNear(0);
    hide Ptr;
  }

  lemma {:induction false} WriteKeepsByte(m: Mem, a: int, n: nat, v: nat, x: Word)
    requires n <= SPACE && !Within(x, a, n)
    ensures Write(m, a, n, v)[x] == m[x]
    decreases n
  {
    hide Within;
    if n > 0 {
      WithinRest(x, a, n);
      WriteKeepsByte(m[Ptr(a) := Mod(v, 0x100)], a + 1, n - 1, v / 0x100, x);
    }
  }

  lemma {:induction false} ReadWritten(m: Mem, a: int, n: nat, v: nat)
    requires n <= SPACE && v < Pow256(n)
    ensures Read(Write(m, a, n, v), a, n) == v
    decreases n
  {
    hide Within;
    if n > 0 {
      var m1 := m[Ptr(a) := Mod(v, 0x100)];
      WithinRest(Ptr(a), a, n);
      WriteKeepsByte(m1, a + 1, n - 1, v / 0x100, Ptr(a));
      ReadWritten(m1, a + 1, n - 1, v / 0x100);
      ModIsRemainder(v, 0x100);
    }
  }

  /** Writing back what is there changes nothing. */
  lemma {:induction false} WriteSame(m: Mem, a: int, n: nat)
    ensures Write(m, a, n, Read(m, a, n)) == m
    decreases n
  {
    if n > 0 {
      var v := Read(m, a, n);
      ModIsRemainder(v, 0x100);
      assert m[Ptr(a) := Mod(v, 0x100)] == m;
      WriteSame(m, a + 1, n - 1);
    }
  }

  lemma ApartBytes(a: int, b: int, i: nat)
    requires Apart(a, b) && i < 4
    ensures !Within(Ptr(b + i), a, 4)
  {
    PtrSum(b + i, -a);
    PtrSum(b - a, i);
    PtrSum(b - a, a - b);
    PtrIs(b - a);
    PtrIs(a - b);
    PtrNear(Ptr(b - a) + i);
    hide Ptr;
  }

  lemma ReadApart(m: Mem, a: int, v: Word, b: int)
    requires Apart(a, b)
    ensures Read32(Write32(m, a, v), b) == Read32(m, b)
  {
    hide Ptr, Within, Apart, Read, Write;
    forall i: nat | i < 4
      ensures SameByte(m, b, Write32(m, a, v), b, i)
    {
      ApartBytes(a, b, i);
      WriteKeepsByte(m, a, 4, v, Ptr(b + i));
    }
    ReadSame(m, b, Write32(m, a, v), b, 4);
  }

  lemma ReadWritten32(m: Mem, a: int, v: Word)
    ensures Read32(Write32(m, a, v), a) == v
  {
    Widths();
    ReadWritten(m, a, 4, v);
  }

  method Store32(ram: array<Byte>, a: int, v: Word)
    requires ram.Length == SPACE
    modifies ram
    ensures ram[..] == Write32(old(ram[..]), a, v)
  {
    var rest: nat := v;
    for i := 0 to 4
      invariant Write(ram[..], a + i, 4 - i, rest) == Write32(old(ram[..]), a, v)
    {
      ghost var before := ram[..];
      var low: Byte := Mod(rest, 0x100);
      ram[Ptr(a + i)] := low;
      assert ram[..] == before[Ptr(a + i) := low];
      rest := rest / 0x100;
    }
  }
}
