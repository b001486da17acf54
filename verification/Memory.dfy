/** Bytes, machine words and addresses of the 32-bit target: pointers name one of
    2^32 bytes, physical addresses are 64-bit numbers, and both wrap. */
module Memory {

  const SPACE: int := 0x1_0000_0000
  const TWO64: int := 0x1_0000_0000_0000_0000

  type Byte = b: int | 0 <= b < 256
  type Word = w: int | 0 <= w < SPACE
  type Addr = a: int | 0 <= a < TWO64

  datatype Option<+T> = None | Some(value: T)

  /** The whole address space. */
  type Mem = m: seq<Byte> | |m| == SPACE witness seq(SPACE, _ => 0)

  /** a modulo n, told by wrapping around. */
  function Mod(a: int, n: int): (r: int)
    requires n > 0
    ensures 0 <= r < n
    decreases if a < 0 then n - a else a
  {
    if a < 0 then Mod(a + n, n) else if a < n then a else Mod(a - n, n)
  }

  lemma {:induction false} ModIsRemainder(a: int, n: int)
    requires n > 0
    ensures Mod(a, n) == a % n
    decreases if a < 0 then n - a else a
  {
    if a < 0 {
      ModIsRemainder(a + n, n);
      QuotientUnique(a + n, n, a / n + 1, a % n);
    } else if a >= n {
      ModIsRemainder(a - n, n);
      QuotientUnique(a - n, n, a / n - 1, a % n);
    } else {
      QuotientUnique(a, n, 0, a);
    }
  }

  /** A 64-bit address used as a pointer: `(VOID *) (UINTN) Addr`. */
  function Ptr(a: int): Word {
    Mod(a, SPACE)
  }

  function Wrap64(a: int): Addr {
    Mod(a, TWO64)
  }

  lemma NoWraps(a: int)
    ensures 0 <= a < SPACE ==> Ptr(a) == a
    ensures 0 <= a < TWO64 ==> Wrap64(a) == a
  {
  }

  lemma PtrSum(a: int, b: int)
    ensures Ptr(Ptr(a) + b) == Ptr(a + b)
  {
    PtrIs(a);
    PtrIs(Ptr(a) + b);
    PtrIs(a + b);
  }

  /** One wrap at most. */
  lemma PtrNear(a: int)
    requires -SPACE <= a < 2 * SPACE
    ensures Ptr(a) == if a < 0 then a + SPACE else if a < SPACE then a else a - SPACE
  {
    assert a < 0 ==> Mod(a, SPACE) == Mod(a + SPACE, SPACE);
    assert a >= SPACE ==> Mod(a, SPACE) == Mod(a - SPACE, SPACE);
  }

  lemma PtrIs(a: int)
    ensures Ptr(a) == a % SPACE
  {
    ModIsRemainder(a, SPACE);
  }

  function Read8(m: Mem, a: int): Byte {
    m[Ptr(a)]
  }

  function Pow256(n: nat): (r: nat)
    ensures r >= 1
  {
    if n == 0 then 1 else 0x100 * Pow256(n - 1)
  }

  /** The little-endian number in the n bytes from a on. */
  function Read(m: Mem, a: int, n: nat): (r: nat)
    ensures r < Pow256(n)
    decreases n, a
  {
    if n == 0 then 0 else Read8(m, a) + 0x100 * Read(m, a + 1, n - 1)
  }

  lemma Widths()
    ensures Pow256(2) == 0x1_0000 && Pow256(3) == 0x100_0000 && Pow256(4) == SPACE && Pow256(8) == TWO64
  {
    assert Pow256(5) == 0x100 * Pow256(4) && Pow256(8) == 0x100 * Pow256(7);
  }

  function Read16(m: Mem, a: int): (r: int)
    ensures 0 <= r < 0x1_0000
  {
    Widths();
    Read(m, a, 2)
  }

  function Read24(m: Mem, a: int): (r: int)
    ensures 0 <= r < 0x100_0000
  {
    Widths();
    Read(m, a, 3)
  }

  function Read32(m: Mem, a: int): Word {
    Widths();
    Read(m, a, 4)
  }

  function Read64(m: Mem, a: int): Addr {
    Widths();
    Read(m, a, 8)
  }

  /** The number that bytes stand for, lowest first. */
  function Value(s: seq<Byte>): (r: nat)
    ensures r < Pow256(|s|)
  {
    if s == [] then 0 else s[0] + 0x100 * Value(s[1..])
  }

  /** The n lowest bytes of v, lowest first. */
  function Bytes(v: nat, n: nat): (s: seq<Byte>)
    ensures |s| == n
    decreases n, v
  {
    if n == 0 then [] else [Mod(v, 0x100)] + Bytes(v / 0x100, n - 1)
  }

  lemma {:induction false} ValueOfBytes(v: nat, n: nat)
    requires v < Pow256(n)
    ensures Value(Bytes(v, n)) == v
    decreases n
  {
    if n > 0 {
      ModIsRemainder(v, 0x100);
      ValueOfBytes(v / 0x100, n - 1);
    }
  }

  lemma {:induction false} ValueUnique(s: seq<Byte>, t: seq<Byte>)
    requires |s| == |t| && Value(s) == Value(t)
    ensures s == t
    decreases |s|
  {
    if s != [] {
      assert s[0] == t[0] && Value(s[1..]) == Value(t[1..]);
      ValueUnique(s[1..], t[1..]);
      assert s == [s[0]] + s[1..] && t == [t[0]] + t[1..];
    }
  }

  /** Reading depends on the bytes alone. */
  lemma {:induction false} ReadSame(m1: Mem, a1: int, m2: Mem, a2: int, n: nat)
    requires forall k: nat | k < n :: SameByte(m1, a1, m2, a2, k)
    ensures Read(m1, a1, n) == Read(m2, a2, n)
    decreases n
  {
    if n > 0 {
      hide Read8;
      assert SameByte(m1, a1, m2, a2, 0);
      var b1, b2 := a1 + 1, a2 + 1;
      forall k: nat | k < n - 1
        ensures SameByte(m1, b1, m2, b2, k)
      {
        assert SameByte(m1, a1, m2, a2, k + 1);
      }
      ReadSame(m1, b1, m2, b2, n - 1);
    }
  }

  predicate ZeroByte(m: Mem, a: int, k: int) {
    Read8(m, a + k) == 0
  }

  ghost predicate Zeros(m: Mem, a: int, n: int) {
    forall k: nat | k < n :: ZeroByte(m, a, k)
  }

  lemma {:induction false} ReadZeros(m: Mem, a: int, n: nat)
    requires Zeros(m, a, n)
    ensures Read(m, a, n) == 0
    decreases n
  {
    if n > 0 {
      hide Read8;
      var b := a + 1;
      assert ZeroByte(m, a, 0);
      forall k: nat | k < n - 1
        ensures ZeroByte(m, b, k)
      {
        assert ZeroByte(m, a, k + 1);
      }
      ReadZeros(m, b, n - 1);
    }
  }

  predicate SameByte(m1: Mem, a1: int, m2: Mem, a2: int, k: int) {
    Read8(m1, a1 + k) == Read8(m2, a2 + k)
  }

  /** The bytes of s lie in memory from address a on. */
  ghost predicate Holds(m: Mem, a: int, s: seq<Byte>) {
    && 0 <= a && a + |s| <= SPACE
    && forall i | 0 <= i < |s| :: m[a + i] == s[i]
  }

  lemma HoldsAt(m: Mem, a: int, s: seq<Byte>, i: nat)
    requires Holds(m, a, s) && i < |s|
    ensures Read8(m, a + i) == s[i]
  {
  }

  lemma HoldsParts(m: Mem, a: int, s: seq<Byte>, t: seq<Byte>)
    ensures Holds(m, a, s + t) <==> Holds(m, a, s) && Holds(m, a + |s|, t)
  {
    var b := a + |s|;
    if Holds(m, a, s + t) {
      forall i | 0 <= i < |s|
        ensures m[a + i] == s[i]
      {
        assert (s + t)[i] == s[i];
      }
      forall i | 0 <= i < |t|
        ensures m[b + i] == t[i]
      {
        assert m[a + (|s| + i)] == (s + t)[|s| + i] == t[i];
      }
    }
    if Holds(m, a, s) && Holds(m, b, t) {
      forall i | 0 <= i < |s + t|
        ensures m[a + i] == (s + t)[i]
      {
        if i >= |s| {
          assert m[b + (i - |s|)] == t[i - |s|] == (s + t)[i];
        }
      }
    }
  }

  lemma {:induction false} ReadHeld(m: Mem, a: int, s: seq<Byte>)
    requires Holds(m, a, s)
    ensures Read(m, a, |s|) == Value(s)
    decreases |s|
  {
    if s != [] {
      hide Holds, Read8;
      HoldsAt(m, a, s, 0);
      assert s == [s[0]] + s[1..];
      HoldsParts(m, a, [s[0]], s[1..]);
      ReadHeld(m, a + 1, s[1..]);
    }
  }

  /** The bytes of s lie in memory from a on, which may be around its end. */
  ghost predicate Lies(m: Mem, a: int, s: seq<Byte>) {
    forall i | 0 <= i < |s| :: LiesAt(m, a, s, i)
  }

  predicate LiesAt(m: Mem, a: int, s: seq<Byte>, i: int)
    requires 0 <= i < |s|
  {
    Read8(m, a + i) == s[i]
  }

  lemma LiesParts(m: Mem, a: int, s: seq<Byte>, t: seq<Byte>)
    ensures Lies(m, a, s + t) <==> Lies(m, a, s) && Lies(m, a + |s|, t)
  {
    hide Read8;
    var b := a + |s|;
    if Lies(m, a, s + t) {
      forall i | 0 <= i < |s|
        ensures LiesAt(m, a, s, i)
      {
        assert LiesAt(m, a, s + t, i);
      }
      forall i | 0 <= i < |t|
        ensures LiesAt(m, b, t, i)
      {
        assert LiesAt(m, a, s + t, |s| + i);
      }
    }
    if Lies(m, a, s) && Lies(m, b, t) {
      forall i | 0 <= i < |s + t|
        ensures LiesAt(m, a, s + t, i)
      {
        if i < |s| {
          assert LiesAt(m, a, s, i);
        } else {
          assert LiesAt(m, b, t, i - |s|);
        }
      }
    }
  }

  /** Bytes that lie somewhere are read as the number they stand for. */
  lemma {:induction false} LiesValue(m: Mem, a: int, s: seq<Byte>)
    ensures Lies(m, a, s) <==> Read(m, a, |s|) == Value(s)
    decreases |s|
  {
    if s != [] {
      hide Lies, Read8;
      assert s == [s[0]] + s[1..];
      LiesParts(m, a, [s[0]], s[1..]);
      LiesValue(m, a + 1, s[1..]);
      LiesOne(m, a, s[0]);
    } else {
      assert Read(m, a, 0) == 0;
    }
  }

  lemma LiesOne(m: Mem, a: int, b: Byte)
    ensures Lies(m, a, [b]) <==> Read8(m, a) == b
  {
    hide Read8;
    assert Read8(m, a + 0) == Read8(m, a);
    if Read8(m, a) == b {
      assert LiesAt(m, a, [b], 0);
    }
    if Lies(m, a, [b]) {
      assert LiesAt(m, a, [b], 0);
    }
  }

  /** A number that lies somewhere is read there, and the other way round. */
  lemma LiesNumber(m: Mem, a: int, v: nat, n: nat)
    requires v < Pow256(n)
    ensures Lies(m, a, Bytes(v, n)) <==> Read(m, a, n) == v
  {
    LiesValue(m, a, Bytes(v, n));
    ValueOfBytes(v, n);
  }

  /** A number is read where its bytes lie. */
  lemma ReadBytes(m: Mem, a: int, v: nat, n: nat)
    requires Holds(m, a, Bytes(v, n)) && v < Pow256(n)
    ensures Read(m, a, n) == v
  {
    ReadHeld(m, a, Bytes(v, n));
    ValueOfBytes(v, n);
  }

  /** Bit b of a value, for b a power of two. */
  predicate Bit(v: nat, b: nat)
    requires b > 0
  {
    (v / b) % 2 == 1
  }

  // ----- Alignment -----

  function Pow2(k: nat): (r: nat)
    ensures r >= 1
  {
    if k == 0 then 1 else 2 * Pow2(k - 1)
  }

  /** Bitwise and of two naturals. */
  function And(x: nat, y: nat): (r: nat)
    decreases x
  {
    if x == 0 then 0 else 2 * And(x / 2, y / 2) + (x % 2) * (y % 2)
  }

  lemma AndAtMost(x: nat, y: nat)
    ensures And(x, y) <= x
    decreases x
  {
    if x > 0 {
      AndAtMost(x / 2, y / 2);
    }
  }

  /** `(Addr + (Bytes - 1)) & ~(Bytes - 1)`: the complement of the promoted byte
      is sign-extended to 64 bits. */
  function AlignAddr(addr: int, bytes: int): Addr
    requires 0 <= addr && 0 < bytes < 256
  {
    AndAtMost(Wrap64(addr + (bytes - 1)), TWO64 - bytes);
    And(Wrap64(addr + (bytes - 1)), TWO64 - bytes)
  }

  lemma DoubleMod(q: nat, b: nat, p: nat)
    requires b < 2 && p > 0
    ensures (2 * q + b) % (2 * p) == 2 * (q % p) + b
  {
    var d, r := q / p, q % p;
    assert q == p * d + r;
    assert 2 * q + b == (2 * p) * d + (2 * r + b);
    QuotientUnique(2 * q + b, 2 * p, d, 2 * r + b);
  }

  lemma NonzeroMultiple(z: int, p: int)
    requires p > 0 && z != 0
    ensures p * z >= p || p * z <= -p
  {
  }

  lemma QuotientUnique(x: int, p: int, d: int, r: int)
    requires p > 0 && 0 <= r < p && x == p * d + r
    ensures x / p == d && x % p == r
  {
    var d', r' := x / p, x % p;
    assert p * (d - d') == r' - r;
    if d != d' {
      NonzeroMultiple(d - d', p);
      assert false;
    }
  }

  lemma Pow2Monotone(k: nat, n: nat)
    requires k <= n
    ensures Pow2(k) <= Pow2(n)
  {
    if k < n {
      Pow2Monotone(k, n - 1);
    }
  }

  lemma Pow2Sum(a: nat, b: nat)
    ensures Pow2(a + b) == Pow2(a) * Pow2(b)
  {
    if a > 0 {
      Pow2Sum(a - 1, b);
      assert Pow2(a) * Pow2(b) == 2 * (Pow2(a - 1) * Pow2(b));
    }
  }

  lemma AndStep(x: nat, h: nat, b: nat)
    requires b < 2
    ensures And(x, 2 * h + b) == 2 * And(x / 2, h) + (x % 2) * b
  {
    assert (2 * h + b) / 2 == h && (2 * h + b) % 2 == b;
  }

  /** Masking with n ones changes nothing. */
  lemma {:induction false} AndKeepsLowBits(x: nat, n: nat)
    requires x < Pow2(n)
    ensures And(x, Pow2(n) - 1) == x
    decreases n
  {
    if n > 0 {
      AndKeepsLowBits(x / 2, n - 1);
      hide Pow2, And;
      AndStep(x, Pow2(n - 1) - 1, 1);
      Pow2Step(n);
    }
  }

  /** Masking with n - k ones above k zeros drops the remainder modulo 2^k. */
  lemma {:induction false} AndClearsLowBits(x: nat, n: nat, k: nat)
    requires x < Pow2(n) && k <= n
    ensures Pow2(k) <= Pow2(n)
    ensures And(x, Pow2(n) - Pow2(k)) == x - x % Pow2(k)
    decreases n
  {
    hide Pow2, And;
    Pow2Monotone(k, n);
    Pow2Step(k);
    if k == 0 {
      AndKeepsLowBits(x, n);
    } else {
      Pow2Step(n);
      AndClearsLowBits(x / 2, n - 1, k - 1);
      AndStep(x, Pow2(n - 1) - Pow2(k - 1), 0);
      DoubleMod(x / 2, x % 2, Pow2(k - 1));
    }
  }

  lemma Pow2Step(k: nat)
    ensures Pow2(k) == if k == 0 then 1 else 2 * Pow2(k - 1)
  {
  }

  lemma AddressPowers(k: nat)
    requires k < 8
    ensures 0 < Pow2(k) < 256
    ensures Pow2(64) == TWO64
  {
    Pow2Monotone(k, 7);
    assert Pow2(8) == 2 * Pow2(7) == 256;
    Pow2Sum(8, 8);
    hide Pow2;
    Pow2Sum(16, 16);
    Pow2Sum(32, 32);
  }

  /** The least multiple of p not below a; 0 when that needs a 65th bit. */
  function Up(a: int, p: int): Addr
    requires 0 <= a < TWO64 && p > 0
  {
    if a > TWO64 - p then 0 else a + Mod(-a, p)
  }

  lemma UpIsLeastMultiple(addr: Addr, p: int)
    requires 0 < p < 256
    ensures Up(addr, p) % p == 0
    ensures addr <= TWO64 - p ==> addr <= Up(addr, p) < addr + p
  {
    if addr <= TWO64 - p {
      var a: int := addr;
      ModIsRemainder(-a, p);
      assert -a == p * (-a / p) + (-a) % p;
      assert p * (-(-a / p)) == -(p * (-a / p));
      QuotientUnique(a + (-a) % p, p, -(-a / p), 0);
    }
  }

  lemma MultipleUnique(r: int, s: int, p: int)
    requires p > 0 && r % p == 0 && s % p == 0 && -p < r - s < p
    ensures r == s
  {
    assert r - s == p * (r / p) - p * (s / p) == p * (r / p - s / p);
    if r / p != s / p {
      NonzeroMultiple(r / p - s / p, p);
    }
  }

  /** The mask computes the rounding. */
  lemma AlignAddrRoundsUp(addr: Addr, k: nat)
    requires k < 8
    ensures 0 < Pow2(k) < 256
    ensures AlignAddr(addr, Pow2(k)) == Up(addr, Pow2(k))
  {
    AddressPowers(k);
    var p := Pow2(k);
    var x := Wrap64(addr + (p - 1));
    AndClearsLowBits(x, 64, k);
    RoundedDown(addr, p);
  }

  lemma RoundedDown(addr: Addr, p: int)
    requires 0 < p < 256
    ensures var x := Wrap64(addr + (p - 1)); x - x % p == Up(addr, p)
  {
    var x := Wrap64(addr + (p - 1));
    assert Mod(addr + (p - 1), TWO64) == if addr + p - 1 < TWO64 then addr + p - 1 else addr + p - 1 - TWO64;
    hide Mod;
    if addr > TWO64 - p {
      QuotientUnique(x, p, 0, x);
    } else {
      hide Up;
      assert x - x % p == p * (x / p);
      QuotientUnique(x - x % p, p, x / p, 0);
      UpIsLeastMultiple(addr, p);
      MultipleUnique(x - x % p, Up(addr, p), p);
    }
  }

  /** AlignAddr yields the least multiple of a power of two not below its
      argument, and rolls over to 0 exactly when that multiple needs a 65th bit. */
  lemma AlignAddrIsLeastMultiple(addr: Addr, k: nat)
    requires k < 8
    ensures 0 < Pow2(k) < 256
    ensures var r := AlignAddr(addr, Pow2(k));
            && r % Pow2(k) == 0
            && (addr <= TWO64 - Pow2(k) ==> addr <= r < addr + Pow2(k))
            && (addr > TWO64 - Pow2(k) <==> r < addr)
            && (addr > TWO64 - Pow2(k) ==> r == 0)
  {
    AlignAddrRoundsUp(addr, k);
    UpIsLeastMultiple(addr, Pow2(k));
  }

  /** The two alignments the walkers use. */
  lemma AlignAddr4And8(addr: Addr)
    ensures AlignAddr(addr, 4) == Up(addr, 4)
    ensures AlignAddr(addr, 8) == Up(addr, 8)
  {
    AlignAddrRoundsUp(addr, 2);
    AlignAddrRoundsUp(addr, 3);
    assert Pow2(2) == 4 && Pow2(3) == 8;
  }

  lemma MultiplesAdd(x: int, y: int, p: int)
    requires p > 0 && x % p == 0 && y % p == 0
    ensures (x + y) % p == 0
  {
    assert x + y == p * (x / p) + p * (y / p) == p * (x / p + y / p);
    QuotientUnique(x + y, p, x / p + y / p, 0);
  }

  lemma UpShiftsBy(addr: Addr, d: int, p: int)
    requires 0 < p < 256 && addr <= TWO64 - p && 0 <= addr + d <= TWO64 - p && d % p == 0
    ensures Up(addr + d, p) == Up(addr, p) + d
  {
    hide Up;
    UpIsLeastMultiple(addr, p);
    UpIsLeastMultiple(addr + d, p);
    MultiplesAdd(Up(addr, p), d, p);
    MultipleUnique(Up(addr + d, p), Up(addr, p) + d, p);
  }

  lemma EighthsAreFourths(x: int)
    requires x % 8 == 0
    ensures x % 4 == 0
  {
  }

  lemma UpShifts(addr: Addr, d: int)
    requires addr <= TWO64 - 8 && 0 <= addr + d <= TWO64 - 8 && d % 8 == 0
    ensures Up(addr + d, 8) == Up(addr, 8) + d
    ensures Up(addr + d, 4) == Up(addr, 4) + d
  {
    hide Up;
    EighthsAreFourths(d);
    UpShiftsBy(addr, d, 8);
    UpShiftsBy(addr, d, 4);
  }

  /** A multiple is its own rounding. */
  lemma UpOfMultiple(addr: Addr, p: int)
    requires 0 < p < 256 && addr <= TWO64 - p && addr % p == 0
    ensures Up(addr, p) == addr
  {
    hide Up;
    UpIsLeastMultiple(addr, p);
    MultipleUnique(Up(addr, p), addr, p);
  }
}
