/** The multiplicative generator of kernel/random.c: multiplication modulo 2^31 - 1 in 32-bit
    words, split into 16-bit halves. */
module Random {

  /** `long` on the i386. Every operation below is checked to stay inside it. */
  newtype int32 = x: int | -0x8000_0000 <= x < 0x8000_0000

  const MODLUS: int32 := 2147483647
  const MULTONE: int32 := 24112
  const MULTTWO: int32 := 26143
  const M: int := 2147483647
  const MULT: int := 630360016      // MULTONE * MULTTWO
  const STREAMS := 101

  // inverses of the multipliers modulo M, with their quotients
  const INV1 := 836567431
  const QUO1 := 9393
  const INV2 := 1709328968
  const QUO2 := 20809
  const INV := 746061395
  const QUO := 218994577

  predicate State(z: int) { 0 < z < M }

  /** The word arithmetic that sys_random spells out once for each multiplier: m*z mod M.
      `& 65535`, `>> 16` and so on are applied to nonnegative words. */
  method Step(z: int32, m: int32) returns (zi: int32)
    requires State(z as int) && (m == MULTONE || m == MULTTWO)
    ensures State(zi as int) && zi as int == (m as int * z as int) % M
  {
    var lowprd := (z % 65536) * m;
    var hi3l := (z / 65536) * m + lowprd / 65536;
    zi := ((lowprd % 65536) - MODLUS) + (hi3l % 32768) * 65536 + hi3l / 32768;
    SplitProduct(z as int, m as int, lowprd as int, hi3l as int);
    NotMultiple(z as int, m as int, if m == MULTONE then INV1 else INV2, if m == MULTONE then QUO1 else QUO2);
    Reduced(zi as int, m as int * z as int, (hi3l / 32768) as int);
    if zi < 0 {
      zi := zi + MODLUS;
    }
  }

  /** 2^31 is 1 modulo M, so the high part of the product may be added to the low part. */
  lemma SplitProduct(z: int, m: int, low: int, hi: int)
    requires 0 < z < M && 0 < m
    requires low == (z % 65536) * m && hi == (z / 65536) * m + low / 65536
    ensures m * z == (low % 65536 + (hi % 32768) * 65536 + hi / 32768) + (hi / 32768) * M
  {
    assert z == (z / 65536) * 65536 + z % 65536;
    assert z * m == (z / 65536) * m * 65536 + (z % 65536) * m;
    assert low == (low / 65536) * 65536 + low % 65536;
    assert hi == (hi / 32768) * 32768 + hi % 32768;
  }

  /** M does not divide m*z when m has an inverse a modulo M. */
  lemma NotMultiple(z: int, m: int, a: int, k: int)
    requires 0 < z < M && a * m == k * M + 1
    ensures (m * z) % M != 0
  {
    if (m * z) % M == 0 {
      var q := m * z / M;
      assert m * z == q * M;
      assert (a * m) * z == a * (m * z);
      assert z == (a * q - z * k) * M;
      Between(a * q - z * k);
    }
  }

  lemma Between(q: int)
    ensures !(0 < q * M < M)
  {
  }

  lemma Reduced(zi: int, p: int, h: int)
    requires -M <= zi < M && p == zi + M + h * M && p % M != 0
    ensures 0 < (if zi < 0 then zi + M else zi) < M
    ensures (if zi < 0 then zi + M else zi) == p % M
  {
    var r := if zi < 0 then zi + M else zi;
    var q := if zi < 0 then h else h + 1;
    assert p == r + q * M;
    Remainder(p, q, r);
  }

  lemma Remainder(p: int, q: int, r: int)
    requires p == r + q * M && 0 <= r < M
    ensures p % M == r
  {
  }

  /** What a draw does to a state. */
  function Draw(z: int): (r: int)
    requires State(z)
    ensures State(r)
  {
    assert INV * MULT == QUO * M + 1;
    NotMultiple(z, MULT, INV, QUO);
    (MULT * z) % M
  }

  /** The two steps together. */
  lemma TwoSteps(z: int, y: int, x: int)
    requires State(z) && y == (24112 * z) % M && x == (26143 * y) % M
    ensures x == Draw(z)
  {
    MulMod(24112 * z, 26143);
    assert 24112 * z * 26143 == MULT * z;
  }

  lemma MulMod(a: int, b: int)
    ensures ((a % M) * b) % M == (a * b) % M
  {
    var q := a / M;
    assert a == q * M + a % M;
    assert a * b == (a % M) * b + (q * b) * M;
    AddMultiple((a % M) * b, q * b);
  }

  lemma AddMultiple(x: int, k: int)
    ensures (x + k * M) % M == x % M
  {
    Remainder(x + k * M, x / M + k, x % M);
  }

  function Power(n: nat): int {
    if n == 0 then 1 else MULT * Power(n - 1)
  }

  /** n draws in a row. */
  function Draws(z: int, n: nat): (r: int)
    requires State(z)
    ensures State(r)
  {
    if n == 0 then z else Draw(Draws(z, n - 1))
  }

  /** Closed form of the whole sequence. */
  lemma {:induction false} DrawsAre(z: int, n: nat)
    requires State(z)
    ensures Draws(z, n) == (Power(n) * z) % M
  {
    if n > 0 {
      DrawsAre(z, n - 1);
      OneMore(Power(n - 1), z, Draws(z, n - 1));
    }
  }

  lemma OneMore(p: int, z: int, d: int)
    requires d == (p * z) % M
    ensures (MULT * d) % M == ((MULT * p) * z) % M
  {
    MulMod(p * z, MULT);
    assert (p * z) * MULT == (MULT * p) * z;
  }

  /** A draw can be undone, so no two states share a successor. */
  lemma DrawInverse(z: int)
    requires State(z)
    ensures (INV * Draw(z)) % M == z
  {
    Undo(z, Draw(z));
  }

  lemma Undo(z: int, d: int)
    requires 0 < z < M && d == (MULT * z) % M
    ensures (INV * d) % M == z
  {
    calc {
      (INV * d) % M;
      (d * INV) % M;
      { MulMod(MULT * z, INV); }
      (MULT * z * INV) % M;
      { Expand(z); }
      (z + (QUO * z) * M) % M;
      { AddMultiple(z, QUO * z); }
      z % M;
    }
  }

  lemma Expand(z: int)
    ensures MULT * z * INV == z + (QUO * z) * M
  {
    assert MULT * z * INV == (MULT * INV) * z;
    assert MULT * INV == QUO * M + 1;
  }

  /** Distinct states stay distinct through any number of draws. */
  lemma {:induction false} StatesStayApart(y: int, z: int, n: nat)
    requires State(y) && State(z) && y != z
    ensures Draws(y, n) != Draws(z, n)
  {
    if n > 0 {
      StatesStayApart(y, z, n - 1);
      DrawInverse(Draws(y, n - 1));
      DrawInverse(Draws(z, n - 1));
    }
  }

  /** Row k of the initial table: streams 10k+1 to 10k+10. */
  function Row(k: nat): (r: seq<int32>)
    requires k < 10
    ensures |r| == 10 && forall i :: 0 <= i < 10 ==> State(r[i] as int)
  {
    if k == 0 then [1973272912, 281629770, 20006270, 1280689831, 2096730329, 1933576050, 913566091, 246780520, 1363774876, 604901985]
    else if k == 1 then [1511192140, 1259851944, 824064364, 150493284, 242708531, 75253171, 1964472944, 1202299975, 233217322, 1911216000]
    else if k == 2 then [726370533, 403498145, 993232223, 1103205531, 762430696, 1922803170, 1385516923, 76271663, 413682397, 726466604]
    else if k == 3 then [336157058, 1432650381, 1120463904, 595778810, 877722890, 1046574445, 68911991, 2088367019, 748545416, 622401386]
    else if k == 4 then [2122378830, 640690903, 1774806513, 2132545692, 2079249579, 78130110, 852776735, 1187867272, 1351423507, 1645973084]
    else if k == 5 then [1997049139, 922510944, 2045512870, 898585771, 243649545, 1004818771, 773686062, 403188473, 372279877, 1901633463]
    else if k == 6 then [498067494, 2087759558, 493157915, 597104727, 1530940798, 1814496276, 536444882, 1663153658, 855503735, 67784357]
    else if k == 7 then [1432404475, 619691088, 119025595, 880802310, 176192644, 1116780070, 277854671, 1366580350, 1142483975, 2026948561]
    else if k == 8 then [1053920743, 786262391, 1792203830, 1494667770, 1923011392, 1433700034, 1244184613, 1147297105, 539712780, 1545929719]
    else [190641742, 1645390429, 264907697, 620389253, 1502074852, 927711160, 364849192, 2049576050, 638580085, 547070247]
  }

  /** The initial states, one for each stream; entry 0 is not a stream. */
  function Table(k: nat): (t: seq<int32>)
    requires k <= 10
    ensures |t| == 10 * k + 1 && forall i :: 1 <= i < |t| ==> State(t[i] as int)
  {
    if k == 0 then [0] else Table(k - 1) + Row(k - 1)
  }

  class Generator {
    var zrng: seq<int32>
    var seed: int

    ghost predicate Valid()
      reads this
    {
      |zrng| == STREAMS && forall i :: 1 <= i < STREAMS ==> State(zrng[i] as int)
    }

    constructor ()
      ensures Valid() && zrng == Table(10) && seed == 0
    {
      zrng, seed := Table(10), 0;
    }

    /** The update in sys_random: the chosen stream advances, the others keep their state. */
    method SysRandom()
      requires Valid()
      modifies this
      ensures Valid() && seed == if old(seed) <= 0 then 0 else old(seed)
      ensures 0 < seed < STREAMS ==> zrng[seed] as int == Draw(old(zrng)[seed] as int)
      ensures |old(zrng)| == STREAMS && forall i :: 0 <= i < STREAMS && (i == 0 || i != seed) ==> zrng[i] == old(zrng)[i]
    {
      if seed <= 0 {
        seed := 0;
      }
      if seed > 0 && seed < STREAMS {
        hide Draw;
        var y := Step(zrng[seed], MULTONE);
        var zi := Step(y, MULTTWO);
        TwoSteps(zrng[seed] as int, y as int, zi as int);
        zrng := zrng[seed := zi];
      }
    }
  }
}
