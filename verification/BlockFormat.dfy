/** Layout of the raw 512-byte disk block: bitmap bytes and the little-endian 32-bit
    words of an indirect block (fs.h, fs.c). */
module BlockFormat {

  newtype byte = x: int | 0 <= x < 256

  const BSIZE := 512
  const BPB := 4096
  const NDIRECT := 12
  const NINDIRECT := 128
  const MAXFILE := 140

  function Zeros(): (z: seq<byte>)
    ensures |z| == BSIZE && forall i :: 0 <= i < BSIZE ==> z[i] == 0
  {
    seq(BSIZE, _ => 0)
  }

  // ----- bitmap bytes -----

  /** `1 << k` on a byte. */
  function Mask(k: nat): bv8
    requires k < 8
  {
    match k case 0 => 1 case 1 => 2 case 2 => 4 case 3 => 8
            case 4 => 16 case 5 => 32 case 6 => 64 case _ => 128
  }

  /** Bit k of a byte: is it set, set it, clear it. */
  predicate On(x: bv8, k: nat)
    requires k < 8
  {
    x & Mask(k) != 0
  }

  function TurnOn(x: bv8, k: nat): bv8
    requires k < 8
  {
    x | Mask(k)
  }

  function TurnOff(x: bv8, k: nat): bv8
    requires k < 8
  {
    x & !Mask(k)
  }

  /** Is block b marked in use? */
  predicate Bit(bitmap: seq<bv8>, b: nat)
    requires b < 8 * |bitmap|
  {
    On(bitmap[b / 8], b % 8)
  }

  function SetBit(bitmap: seq<bv8>, b: nat): (r: seq<bv8>)
    requires b < 8 * |bitmap|
    ensures |r| == |bitmap|
  {
    bitmap[b / 8 := TurnOn(bitmap[b / 8], b % 8)]
  }

  function ClearBit(bitmap: seq<bv8>, b: nat): (r: seq<bv8>)
    requires b < 8 * |bitmap|
    ensures |r| == |bitmap|
  {
    bitmap[b / 8 := TurnOff(bitmap[b / 8], b % 8)]
  }

  /** Two to the k-th. */
  function Power(k: nat): (p: nat)
    ensures 0 < p
  {
    if k == 0 then 1 else 2 * Power(k - 1)
  }

  lemma Powers()
    ensures Power(0) == 1 && Power(1) == 2 && Power(2) == 4 && Power(3) == 8
    ensures Power(4) == 16 && Power(5) == 32 && Power(6) == 64 && Power(7) == 128
  {
    assert Power(3) == 8;
  }

  lemma Digit0(x: bv8)
    ensures x & 1 != 0 <==> (x as int) % 2 == 1
  {
  }

  lemma Digit1(x: bv8)
    ensures x & 2 != 0 <==> (x as int) / 2 % 2 == 1
  {
  }

  lemma Digit2(x: bv8)
    ensures x & 4 != 0 <==> (x as int) / 4 % 2 == 1
  {
  }

  lemma Digit3(x: bv8)
    ensures x & 8 != 0 <==> (x as int) / 8 % 2 == 1
  {
  }

  lemma Digits4567(x: bv8)
    ensures x & 16 != 0 <==> (x as int) / 16 % 2 == 1
    ensures x & 32 != 0 <==> (x as int) / 32 % 2 == 1
    ensures x & 64 != 0 <==> (x as int) / 64 % 2 == 1
    ensures x & 128 != 0 <==> (x as int) / 128 % 2 == 1
  {
  }

  /** Bit k of a byte is its k-th binary digit. */
  lemma BitIsDigit(x: bv8, k: nat)
    requires k < 8
    ensures On(x, k) <==> (x as int) / Power(k) % 2 == 1
  {
    Digit0(x);
    Digit1(x);
    Digit2(x);
    Digit3(x);
    Digits4567(x);
    Powers();
    hide Power;
  }

  lemma MaskIsPower(k: nat)
    requires k < 8
    ensures Mask(k) as int == Power(k)
  {
    Powers();
    hide Power;
  }

  lemma TurnOnAdds(x: bv8, k: nat)
    requires k < 8 && !On(x, k)
    ensures TurnOn(x, k) as int == x as int + Mask(k) as int
  {
  }

  lemma TurnOffSubtracts(x: bv8, k: nat)
    requires k < 8 && On(x, k)
    ensures TurnOff(x, k) as int == x as int - Mask(k) as int
  {
  }

  /** Setting a clear bit adds its power of two, clearing a set one takes it away. */
  lemma BitWeighs(x: bv8, k: nat)
    requires k < 8
    ensures !On(x, k) ==> TurnOn(x, k) as int == x as int + Power(k)
    ensures On(x, k) ==> TurnOff(x, k) as int == x as int - Power(k)
  {
    MaskIsPower(k);
    hide Power, Mask, On, TurnOn, TurnOff;
    if On(x, k) {
      TurnOffSubtracts(x, k);
    } else {
      TurnOnAdds(x, k);
    }
  }

  lemma TurnsOn(x: bv8, i: nat, j: nat)
    requires i < 8 && j < 8
    ensures On(TurnOn(x, i), j) <==> i == j || On(x, j)
  {
  }

  lemma TurnsOff(x: bv8, i: nat, j: nat)
    requires i < 8 && j < 8
    ensures On(TurnOff(x, i), j) <==> i != j && On(x, j)
  {
  }

  /** The byte-level updates are exactly the bit-level ones: one bit changes, no other. */
  lemma BitUpdates(bitmap: seq<bv8>, b: nat, c: nat)
    requires b < 8 * |bitmap| && c < 8 * |bitmap|
    ensures Bit(SetBit(bitmap, b), c) <==> b == c || Bit(bitmap, c)
    ensures Bit(ClearBit(bitmap, b), c) <==> b != c && Bit(bitmap, c)
  {
    hide On, TurnOn, TurnOff;
    if b / 8 == c / 8 {
      TurnsOn(bitmap[b / 8], b % 8, c % 8);
      TurnsOff(bitmap[b / 8], b % 8, c % 8);
    }
  }

  // ----- little-endian words -----

  function Word(block: seq<byte>, i: nat): (w: nat)
    requires |block| == BSIZE && i < NINDIRECT
  {
    block[4 * i] as int + 256 * (block[4 * i + 1] as int)
    + 65536 * (block[4 * i + 2] as int) + 16777216 * (block[4 * i + 3] as int)
  }

  function SetWord(block: seq<byte>, i: nat, w: nat): (r: seq<byte>)
    requires |block| == BSIZE && i < NINDIRECT && w < 0x1_0000_0000
    ensures |r| == BSIZE
  {
    block[4 * i := (w % 256) as byte][4 * i + 1 := (w / 256 % 256) as byte]
         [4 * i + 2 := (w / 65536 % 256) as byte][4 * i + 3 := (w / 16777216) as byte]
  }

  lemma LittleEndian(w: nat)
    ensures w == w % 256 + 256 * (w / 256 % 256) + 65536 * (w / 65536 % 256) + 16777216 * (w / 16777216)
  {
    assert w / 65536 == w / 256 / 256 && w / 16777216 == w / 65536 / 256;
  }

  /** The four bytes of a word are its base-256 digits, lowest first. */
  lemma WordDigits(block: seq<byte>, i: nat)
    requires |block| == BSIZE && i < NINDIRECT
    ensures var w := Word(block, i);
      && w < 0x1_0000_0000 && w % 256 == block[4 * i] as int && w / 256 % 256 == block[4 * i + 1] as int
      && w / 65536 % 256 == block[4 * i + 2] as int && w / 16777216 == block[4 * i + 3] as int
  {
    var w := Word(block, i);
    var a, b, c, d := block[4 * i] as int, block[4 * i + 1] as int, block[4 * i + 2] as int, block[4 * i + 3] as int;
    assert w / 256 == b + 256 * c + 65536 * d;
    assert w / 65536 == c + 256 * d;
  }

  lemma WordRoundTrip(block: seq<byte>, i: nat, w: nat, j: nat)
    requires |block| == BSIZE && i < NINDIRECT && w < 0x1_0000_0000 && j < NINDIRECT
    ensures Word(SetWord(block, i, w), j) == if i == j then w else Word(block, j)
  {
    var r := SetWord(block, i, w);
    if i == j {
      LittleEndian(w);
    } else {
      assert 4 * j + 3 < 4 * i || 4 * i + 3 < 4 * j;
    }
  }

  lemma ZeroWords(i: nat)
    requires i < NINDIRECT
    ensures Word(Zeros(), i) == 0
  {
  }
}
