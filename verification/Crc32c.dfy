/** CRC-32C (Castagnoli) as src/core/integrity.cpp computes it: a 256-entry table and a
    byte-at-a-time loop, proved equal to the bit-serial reflected division of
    section 12.1 of RFC 3720, and what that equality buys: chaining, detection of every
    burst of at most 32 bits, and a constant residue. Words are natural numbers, so a
    register is also the polynomial whose coefficients are its bits. */
module Crc32c {
  import opened Words

  type Byte = n: nat | n < 256

  /** The Castagnoli polynomial, bits reversed. */
  const POLY: nat := 0x82F63B78
  const WORD: nat := 0x1_0000_0000
  const ONES: nat := 0xFFFF_FFFF

  lemma WordIsPow2()
    ensures WORD == Pow2(32) && ONES < Pow2(32) && Pow2(31) <= POLY < Pow2(32)
  {
    assert Pow2(8) == 256;
    assert Pow2(16) == 65536;
    assert Pow2(24) == 0x100_0000;
    assert Pow2(31) == 0x8000_0000;
  }

  /** One division step of the reflected register: the low bit is the coefficient shifted out. */
  function Step(c: nat): nat {
    if c % 2 == 1 then Xor(POLY, c / 2) else c / 2
  }

  function Steps(c: nat, n: nat): nat
    decreases n
  {
    if n == 0 then c else Steps(Step(c), n - 1)
  }

  /** The complement of a 32-bit word. */
  function Not(c: nat): nat {
    Xor(c, ONES)
  }

  // ------------------------------------------------------------------ bit-serial reference

  function Bit(b: bool): nat {
    if b then 1 else 0
  }

  /** The register after consuming message bits one at a time, first bit first. */
  function Feed(c: nat, bits: seq<bool>): nat
    decreases |bits|
  {
    if bits == [] then c else Feed(Step(Xor(c, Bit(bits[0]))), bits[1..])
  }

  /** The low n bits of a number in transmission order (least significant first). */
  function BitsOf(x: nat, n: nat): (bits: seq<bool>)
    ensures |bits| == n
    decreases n
  {
    if n == 0 then [] else [x % 2 == 1] + BitsOf(x / 2, n - 1)
  }

  function Bits(data: seq<Byte>): (bits: seq<bool>)
    ensures |bits| == 8 * |data|
  {
    if data == [] then [] else BitsOf(data[0], 8) + Bits(data[1..])
  }

  /** The checksum by definition: complement, divide bit by bit, complement. */
  function Crc(data: seq<Byte>, seed: nat): nat {
    Not(Feed(Not(seed), Bits(data)))
  }

  lemma {:induction false} FeedConcat(c: nat, a: seq<bool>, b: seq<bool>)
    ensures Feed(c, a + b) == Feed(Feed(c, a), b)
    decreases |a|
  {
    if a == [] {
      assert a + b == b;
    } else {
      assert (a + b)[1..] == a[1..] + b;
      FeedConcat(Step(Xor(c, Bit(a[0]))), a[1..], b);
    }
  }

  lemma {:induction false} BitsConcat(a: seq<Byte>, b: seq<Byte>)
    ensures Bits(a + b) == Bits(a) + Bits(b)
  {
    if a == [] {
      assert a + b == b;
    } else {
      assert (a + b)[1..] == a[1..] + b;
      BitsConcat(a[1..], b);
    }
  }

  // ------------------------------------------------------------------ words of message bits

  /** A pattern waiting above the low bit moves down one place and is otherwise untouched. */
  lemma ShiftIn(c: nat, v: nat)
    ensures Step(Xor(c, 2 * v)) == Xor(Step(c), v)
  {
    XorEven(c, v);
    XorAssoc(POLY, c / 2, v);
  }

  lemma XorEven(c: nat, v: nat)
    ensures Xor(c, 2 * v) % 2 == c % 2 && Xor(c, 2 * v) / 2 == Xor(c / 2, v)
  {
    var w := 2 * v;
    assert w / 2 == v by {
      Halve(v, 0);
    }
    assert (c + w) % 2 == c % 2 by {
      AddEven(c, v);
    }
    XorBits(c, w);
  }

  lemma AddEven(c: nat, v: nat)
    ensures (c + 2 * v) % 2 == c % 2
  {
  }

  /** Message bits as one word, first bit lowest. */
  function Pack(bits: seq<bool>): nat {
    if bits == [] then 0 else Bit(bits[0]) + 2 * Pack(bits[1..])
  }

  lemma {:induction false} PackBitsOf(x: nat, n: nat)
    requires x < Pow2(n)
    ensures Pack(BitsOf(x, n)) == x
    decreases n
  {
    if n > 0 {
      PackBitsOf(x / 2, n - 1);
      assert BitsOf(x, n)[1..] == BitsOf(x / 2, n - 1);
    }
  }

  lemma {:induction false} PackInjective(a: seq<bool>, b: seq<bool>)
    requires |a| == |b| && Pack(a) == Pack(b)
    ensures a == b
    decreases |a|
  {
    if a != [] {
      assert Pack(a) % 2 == Bit(a[0]) && Pack(b) % 2 == Bit(b[0]);
      PackInjective(a[1..], b[1..]);
      assert a == [a[0]] + a[1..] && b == [b[0]] + b[1..];
    }
  }

  lemma {:induction false} PackBound(bits: seq<bool>)
    ensures Pack(bits) < Pow2(|bits|)
  {
    if bits != [] {
      PackBound(bits[1..]);
    }
  }

  lemma XorSplit(c: nat, b: bool, p: nat)
    ensures Xor(c, Bit(b) + 2 * p) == Xor(Xor(c, Bit(b)), 2 * p)
  {
    XorBits(Bit(b), 2 * p);
    assert Xor(Bit(b), 2 * p) == Bit(b) + 2 * p;
    XorAssoc(c, Bit(b), 2 * p);
  }

  /** Consuming bits one by one is as many bare steps of the register xor their word. */
  lemma {:induction false} FeedWord(c: nat, bits: seq<bool>)
    ensures Feed(c, bits) == Steps(Xor(c, Pack(bits)), |bits|)
    decreases |bits|
  {
    if bits != [] {
      var c', p := Xor(c, Bit(bits[0])), Pack(bits[1..]);
      FeedWord(Step(c'), bits[1..]);
      ShiftIn(c', p);
      XorSplit(c, bits[0], p);
    }
  }

  // ------------------------------------------------------------------ the table

  function Up(v: nat, k: nat): nat {
    if k == 0 then v else 2 * Up(v, k - 1)
  }

  lemma {:induction false} UpIs(v: nat, k: nat)
    ensures Up(v, k) == Pow2(k) * v
  {
    if k > 0 {
      UpIs(v, k - 1);
    }
  }

  lemma {:induction false} StepsShift(c: nat, v: nat, k: nat)
    ensures Steps(Xor(c, Up(v, k)), k) == Xor(Steps(c, k), v)
    decreases k
  {
    if k > 0 {
      ShiftIn(c, Up(v, k - 1));
      StepsShift(Step(c), v, k - 1);
    }
  }

  lemma {:induction false} XorDisjoint(a: nat, v: nat, k: nat)
    requires a < Pow2(k)
    ensures Xor(a, Up(v, k)) == a + Up(v, k)
    decreases k
  {
    if k > 0 {
      XorDisjoint(a / 2, v, k - 1);
      XorEven(a, Up(v, k - 1));
      Rejoin(Xor(a, Up(v, k)), a, Up(v, k - 1));
    }
  }

  lemma Rejoin(x: nat, a: nat, u: nat)
    requires x % 2 == a % 2 && x / 2 == a / 2 + u
    ensures x == a + 2 * u
  {
  }

  /** The table identity: the low bits select the entry, the rest only shifts. */
  lemma TableIdentity(lo: nat, hi: nat, k: nat)
    requires lo < Pow2(k)
    ensures Steps(lo + Pow2(k) * hi, k) == Xor(Steps(lo, k), hi)
  {
    UpIs(hi, k);
    XorDisjoint(lo, hi, k);
    StepsShift(lo, hi, k);
  }

  // ------------------------------------------------------------------ the code

  ghost predicate IsTable(t: seq<nat>) {
    |t| == 256 && forall i :: 0 <= i < 256 ==> t[i] == Steps(i, 8)
  }

  /** The inner loop of table(): conditional shifts by the polynomial. */
  method Entry(i: nat, rounds: nat) returns (c: nat)
    ensures c == Steps(i, rounds)
  {
    c := i;
    for k := 0 to rounds
      invariant Steps(c, rounds - k) == Steps(i, rounds)
    {
      AndMask(c, 1);
      c := if And(c, 1) != 0 then Xor(POLY, c / 2) else c / 2;
    }
  }

  /** table(): the 256 entries. */
  method Table() returns (t: array<nat>)
    ensures fresh(t) && IsTable(t[..])
  {
    t := new nat[256];
    var rounds := 8;
    for i := 0 to 256
      invariant forall j :: 0 <= j < i ==> t[j] == Steps(j, rounds)
    {
      t[i] := Entry(i, rounds);
    }
  }

  lemma {:induction false} FeedByte(c: nat, b: Byte, k: nat)
    requires k == 8
    ensures Feed(c, BitsOf(b, k)) == Steps(Xor(c, b), k)
  {
    assert Pow2(8) == 256;
    FeedWord(c, BitsOf(b, k));
    PackBitsOf(b, k);
  }

  lemma {:induction false} XorLowByte(c: nat, b: nat, k: nat)
    requires b < Pow2(k)
    ensures Xor(c, b) / Pow2(k) == c / Pow2(k)
    decreases k
  {
    if k > 0 {
      XorLowByte(c / 2, b / 2, k - 1);
      XorBits(c, b);
      DivDouble(Xor(c, b), Pow2(k - 1));
      DivDouble(c, Pow2(k - 1));
    }
  }

  lemma DivDouble(x: nat, p: nat)
    requires p > 0
    ensures x / (2 * p) == (x / 2) / p
  {
    var q, r := (x / 2) / p, (x / 2) % p;
    assert x / 2 == p * q + r;
    assert (2 * p) * q == 2 * (p * q);
    ModUnique(x, 2 * p, q, 2 * r + x % 2);
  }

  /** One iteration of the byte loop consumes the eight bits of the byte. */
  lemma ByteStep(t: seq<nat>, c: nat, b: Byte)
    requires IsTable(t)
    ensures And(Xor(c, b), 0xFF) < 256
    ensures Xor(t[And(Xor(c, b), 0xFF)], c / 256) == Feed(c, BitsOf(b, 8))
  {
    var k := 8;
    assert Pow2(8) == 256;
    var x := Xor(c, b);
    AndMask(x, k);
    TableIdentity(x % 256, x / 256, k);
    XorLowByte(c, b, k);
    FeedByte(c, b, k);
  }

  lemma Consume(t: seq<nat>, data: seq<Byte>, i: nat, seed: nat, c: nat)
    requires IsTable(t) && i < |data| && c == Feed(Not(seed), Bits(data[..i]))
    ensures And(Xor(c, data[i]), 0xFF) < 256
    ensures Xor(t[And(Xor(c, data[i]), 0xFF)], c / 256) == Feed(Not(seed), Bits(data[..i + 1]))
  {
    ByteStep(t, c, data[i]);
    BitsSnoc(data[..i], data[i]);
    assert data[..i + 1] == data[..i] + [data[i]];
    FeedConcat(Not(seed), Bits(data[..i]), BitsOf(data[i], 8));
  }

  /** crc32c(data, len, seed): the table loop computes the bit-serial checksum. */
  method Checksum(data: seq<Byte>, seed: nat) returns (crc: nat)
    ensures crc == Crc(data, seed)
  {
    var tbl := Table();
    crc := Not(seed);
    for i := 0 to |data|
      invariant IsTable(tbl[..])
      invariant crc == Feed(Not(seed), Bits(data[..i]))
    {
      Consume(tbl[..], data, i, seed, crc);
      crc := Xor(tbl[And(Xor(crc, data[i]), 0xFF)], crc / 256);
    }
    assert data[..|data|] == data;
    crc := Not(crc);
  }

  lemma BitsSnoc(a: seq<Byte>, b: Byte)
    ensures Bits(a + [b]) == Bits(a) + BitsOf(b, 8)
  {
    BitsConcat(a, [b]);
    assert Bits([b]) == BitsOf(b, 8) + Bits([][..]);
  }

  // ------------------------------------------------------------------ what the checksum promises

  lemma NotNot(x: nat)
    ensures Not(Not(x)) == x
  {
    XorAssoc(x, ONES, ONES);
    XorSelf(ONES);
  }

  /** The running form: seeding with the checksum of a prefix continues it. */
  lemma Chaining(a: seq<Byte>, b: seq<Byte>, seed: nat)
    ensures Crc(a + b, seed) == Crc(b, Crc(a, seed))
  {
    BitsConcat(a, b);
    FeedConcat(Not(seed), Bits(a), Bits(b));
    NotNot(Feed(Not(seed), Bits(a)));
  }

  lemma StepBound(c: nat)
    requires c < Pow2(32)
    ensures Step(c) < Pow2(32)
  {
    WordIsPow2();
    XorBound(POLY, c / 2, 32);
  }

  lemma {:induction false} FeedBound(c: nat, bits: seq<bool>)
    requires c < Pow2(32)
    ensures Feed(c, bits) < Pow2(32)
    decreases |bits|
  {
    if bits != [] {
      WordIsPow2();
      XorBound(c, Bit(bits[0]), 32);
      StepBound(Xor(c, Bit(bits[0])));
      FeedBound(Step(Xor(c, Bit(bits[0]))), bits[1..]);
    }
  }

  /** A 32-bit seed gives a 32-bit checksum: the register never needs a 33rd bit. */
  lemma ChecksumIsWord(data: seq<Byte>, seed: nat)
    requires seed < WORD
    ensures Crc(data, seed) < WORD
  {
    WordIsPow2();
    XorBound(seed, ONES, 32);
    FeedBound(Not(seed), Bits(data));
    XorBound(Feed(Not(seed), Bits(data)), ONES, 32);
  }

  /** The step is injective on words because the polynomial has the top coefficient. */
  lemma StepInjective(a: nat, b: nat)
    requires a < Pow2(32) && b < Pow2(32) && Step(a) == Step(b)
    ensures a == b
  {
    WordIsPow2();
    if a % 2 == 1 && b % 2 == 1 {
      XorCancel(POLY, a / 2, b / 2);
    } else if a % 2 == 1 {
      XorTop(POLY, a / 2, 31);
    } else if b % 2 == 1 {
      XorTop(POLY, b / 2, 31);
    }
  }

  lemma {:induction false} StepsInjective(a: nat, b: nat, n: nat)
    requires a < Pow2(32) && b < Pow2(32) && Steps(a, n) == Steps(b, n)
    ensures a == b
    decreases n
  {
    if n > 0 {
      StepBound(a);
      StepBound(b);
      StepsInjective(Step(a), Step(b), n - 1);
      StepInjective(a, b);
    }
  }

  lemma {:induction false} FeedInjective(c: nat, d: nat, bits: seq<bool>)
    requires c < Pow2(32) && d < Pow2(32) && c != d
    ensures Feed(c, bits) != Feed(d, bits)
    decreases |bits|
  {
    if bits != [] {
      var e := Bit(bits[0]);
      var c', d' := Xor(c, e), Xor(d, e);
      WordIsPow2();
      XorBound(c, e, 32);
      XorBound(d, e, 32);
      if Step(c') == Step(d') {
        StepInjective(c', d');
        XorComm(c, e);
        XorComm(d, e);
        XorCancel(e, c, d);
      }
      StepBound(c');
      StepBound(d');
      FeedInjective(Step(c'), Step(d'), bits[1..]);
    }
  }

  lemma {:induction false} Pow2Monotone(m: nat, n: nat)
    requires m <= n
    ensures Pow2(m) <= Pow2(n)
    decreases n
  {
    if m < n {
      Pow2Monotone(m, n - 1);
    }
  }

  /** Different messages of at most 32 bits drive one register to different registers. */
  lemma FeedWindow(c: nat, v: seq<bool>, w: seq<bool>)
    requires c < Pow2(32) && |v| == |w| <= 32 && v != w
    ensures Feed(c, v) != Feed(c, w)
  {
    var n := |v|;
    var p, q := Pack(v), Pack(w);
    FeedWord(c, v);
    FeedWord(c, w);
    PackBound(v);
    PackBound(w);
    Pow2Monotone(n, 32);
    XorBound(c, p, 32);
    XorBound(c, q, 32);
    if Steps(Xor(c, p), n) == Steps(Xor(c, q), n) {
      StepsInjective(Xor(c, p), Xor(c, q), n);
      XorCancel(c, p, q);
      PackInjective(v, w);
    }
  }

  /** The two bit strings agree outside the window of at most 32 bits that starts at i. */
  ghost predicate DifferInBurst(x: seq<bool>, y: seq<bool>, i: nat, n: nat) {
    |x| == |y| && i + n <= |x| && n <= 32 && x != y && x[..i] == y[..i] && x[i + n..] == y[i + n..]
  }

  lemma FeedThirds(c: nat, x: seq<bool>, i: nat, n: nat)
    requires i + n <= |x|
    ensures Feed(c, x) == Feed(Feed(Feed(c, x[..i]), x[i..i + n]), x[i + n..])
  {
    assert x == x[..i] + x[i..i + n] + x[i + n..];
    FeedConcat(c, x[..i], x[i..i + n]);
    FeedConcat(c, x[..i] + x[i..i + n], x[i + n..]);
  }

  /** Two messages that differ in a burst leave different remainders. */
  lemma FeedBurst(c: nat, x: seq<bool>, y: seq<bool>, i: nat, n: nat)
    requires c < Pow2(32) && DifferInBurst(x, y, i, n)
    ensures Feed(c, x) != Feed(c, y)
  {
    var s, v, w := Feed(c, x[..i]), x[i..i + n], y[i..i + n];
    assert v != w by {
      assert x == x[..i] + v + x[i + n..];
      assert y == y[..i] + w + y[i + n..];
    }
    FeedBound(c, x[..i]);
    FeedWindow(s, v, w);
    FeedBound(s, v);
    FeedBound(s, w);
    FeedInjective(Feed(s, v), Feed(s, w), x[i + n..]);
    FeedThirds(c, x, i, n);
    FeedThirds(c, y, i, n);
  }

  /** Every error burst of at most 32 bits changes the checksum, whatever the seed. */
  lemma BurstDetected(a: seq<Byte>, b: seq<Byte>, seed: nat, i: nat, n: nat)
    requires seed < WORD
    requires DifferInBurst(Bits(a), Bits(b), i, n)
    ensures Crc(a, seed) != Crc(b, seed)
  {
    WordIsPow2();
    XorBound(seed, ONES, 32);
    FeedBurst(Not(seed), Bits(a), Bits(b), i, n);
    NotNot(Feed(Not(seed), Bits(a)));
    NotNot(Feed(Not(seed), Bits(b)));
  }

  /** The byte form: inputs that differ only inside four consecutive bytes. */
  lemma FourBytesDetected(a: seq<Byte>, b: seq<Byte>, seed: nat, i: nat)
    requires seed < WORD
    requires |a| == |b| && a != b && i <= |a|
    requires forall j :: 0 <= j < |a| && !(i <= j < i + 4) ==> a[j] == b[j]
    ensures Crc(a, seed) != Crc(b, seed)
  {
    var e := if i + 4 <= |a| then i + 4 else |a|;
    assert a[..i] == b[..i] && a[e..] == b[e..];
    BitsAround(a, i, e);
    BitsAround(b, i, e);
    BitsDiffer(a, b);
    BurstDetected(a, b, seed, 8 * i, 8 * (e - i));
  }

  lemma BitsAround(a: seq<Byte>, i: nat, e: nat)
    requires i <= e <= |a|
    ensures Bits(a)[..8 * i] == Bits(a[..i]) && Bits(a)[8 * i + 8 * (e - i)..] == Bits(a[e..])
  {
    assert 8 * i + 8 * (e - i) == 8 * e;
    BitsSplit(a, i);
    BitsSplit(a, e);
  }

  lemma BitsSplit(a: seq<Byte>, i: nat)
    requires i <= |a|
    ensures Bits(a)[..8 * i] == Bits(a[..i]) && Bits(a)[8 * i..] == Bits(a[i..])
  {
    assert a == a[..i] + a[i..];
    BitsConcat(a[..i], a[i..]);
  }

  lemma {:induction false} BitsDiffer(a: seq<Byte>, b: seq<Byte>)
    requires |a| == |b| && a != b
    ensures Bits(a) != Bits(b)
    decreases |a|
  {
    var u, v := Bits(a), Bits(b);
    assert u[..8] == BitsOf(a[0], 8) && u[8..] == Bits(a[1..]);
    assert v[..8] == BitsOf(b[0], 8) && v[8..] == Bits(b[1..]);
    if a[0] != b[0] {
      assert Pow2(8) == 256;
      PackBitsOf(a[0], 8);
      PackBitsOf(b[0], 8);
    } else {
      assert a == [a[0]] + a[1..] && b == [b[0]] + b[1..];
      BitsDiffer(a[1..], b[1..]);
    }
  }

  // ------------------------------------------------------------------ residue

  /** The n bytes of a number, least significant first, as they lie in memory. */
  function LittleEndian(x: nat, n: nat): (bytes: seq<Byte>)
    ensures |bytes| == n
    decreases n
  {
    if n == 0 then [] else [x % 256] + LittleEndian(x / 256, n - 1)
  }

  function Down(x: nat, k: nat): nat
    decreases k
  {
    if k == 0 then x else Down(x / 2, k - 1)
  }

  lemma {:induction false} BitsOfSplit(x: nat, m: nat, n: nat)
    ensures BitsOf(x, m + n) == BitsOf(x, m) + BitsOf(Down(x, m), n)
    decreases m
  {
    if m > 0 {
      BitsOfSplit(x / 2, m - 1, n);
    }
  }

  lemma DownByte(x: nat)
    ensures Down(x, 8) == x / 256
  {
    assert Down(x, 8) == Down(x / 4, 6) == Down(x / 16, 4) == Down(x / 64, 2) == Down(x / 256, 0);
  }

  lemma {:induction false} BitsOfLow(x: nat, n: nat)
    ensures BitsOf(x % Pow2(n), n) == BitsOf(x, n)
    decreases n
  {
    if n > 0 {
      ModDouble(x, Pow2(n - 1));
      BitsOfLow(x / 2, n - 1);
    }
  }

  lemma {:induction false} BitsLittleEndian(x: nat, n: nat, k: nat)
    requires k == 8
    ensures Bits(LittleEndian(x, n)) == BitsOf(x, k * n)
    decreases n
  {
    if n > 0 {
      assert Pow2(8) == 256;
      BitsLittleEndian(x / 256, n - 1, k);
      BitsOfSplit(x, k, k * (n - 1));
      DownByte(x);
      BitsOfLow(x, k);
      assert LittleEndian(x, n)[1..] == LittleEndian(x / 256, n - 1);
    }
  }

  /** What the checksum of any message followed by its own checksum always is. */
  function Residue(n: nat): nat {
    Not(Steps(ONES, n))
  }

  lemma XorOnes(s: nat)
    ensures Xor(s, Not(s)) == ONES
  {
    XorAssoc(s, s, ONES);
    XorSelf(s);
  }

  /** Appending the little-endian checksum leaves the same residue for every message and seed. */
  lemma ConstantResidue(data: seq<Byte>, seed: nat)
    requires seed < WORD
    ensures Crc(data + LittleEndian(Crc(data, seed), 4), seed) == Residue(32)
  {
    var crc := Crc(data, seed);
    var s := Feed(Not(seed), Bits(data));
    ChecksumIsWord(data, seed);
    WordIsPow2();
    var tail := Bits(LittleEndian(crc, 4));
    BitsLittleEndian(crc, 4, 8);
    PackBitsOf(crc, 32);
    BitsConcat(data, LittleEndian(crc, 4));
    FeedConcat(Not(seed), Bits(data), tail);
    FeedWord(s, tail);
    XorOnes(s);
  }
}
