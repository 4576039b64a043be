/** Mixing two packed colours by a factor in [0 256], several channels at once.
    Words are numbers here, with the wrap-around of their width written out. */
module ColorMix {

  import opened Basics

  // ----- bits ----------------------------------------------------------------

  function And(x: nat, y: nat): (r: nat)
    ensures r <= x && r <= y
    decreases y
  {
    if x == 0 || y == 0 then 0 else (if x % 2 == 1 && y % 2 == 1 then 1 else 0) + 2 * And(x / 2, y / 2)
  }

  function Or(x: nat, y: nat): (r: nat)
    ensures r <= x + y
    decreases x + y
  {
    if x == 0 then y else if y == 0 then x
    else (if x % 2 == 1 || y % 2 == 1 then 1 else 0) + 2 * Or(x / 2, y / 2)
  }

  lemma {:induction false} OrIsSum(x: nat, y: nat)
    requires And(x, y) == 0
    ensures Or(x, y) == x + y
    decreases x + y
  {
    if x != 0 && y != 0 {
      OrIsSum(x / 2, y / 2);
    }
  }

  /** Words under masks that have no bit in common. */
  lemma {:induction false} AndApart(x: nat, m: nat, y: nat, n: nat)
    requires And(m, n) == 0
    ensures And(And(x, m), And(y, n)) == 0
    decreases m + n
  {
    if x != 0 && m != 0 && y != 0 && n != 0 {
      AndApart(x / 2, m / 2, y / 2, n / 2);
      Halved(x, m);
      Halved(y, n);
      Halved(And(x, m), And(y, n));
    }
  }

  lemma Halved(x: nat, m: nat)
    ensures And(x, m) / 2 == And(x / 2, m / 2)
    ensures And(x, m) % 2 == 1 <==> x % 2 == 1 && m % 2 == 1
  {
  }

  /** One bit of a mask at a time. */
  lemma OneBit(x: nat, m: nat)
    ensures And(x, 2 * m + 1) == x % 2 + 2 * And(x / 2, m)
    ensures And(x, 2 * m) == 2 * And(x / 2, m)
  {
    assert (2 * m + 1) / 2 == m && (2 * m) / 2 == m;
  }

  lemma Ones2(x: nat, m: nat)
    ensures And(x, 4 * m + 3) == x % 4 + 4 * And(x / 4, m)
  {
    hide And;
    OneBit(x, 2 * m + 1);
    OneBit(x / 2, m);
    assert x / 2 / 2 == x / 4;
  }

  lemma Ones4(x: nat, m: nat)
    ensures And(x, 16 * m + 15) == x % 16 + 16 * And(x / 16, m)
  {
    hide And;
    Ones2(x, 4 * m + 3);
    Ones2(x / 4, m);
    assert x / 4 / 4 == x / 16;
  }

  lemma Ones8(x: nat, m: nat)
    ensures And(x, 0x100 * m + 0xff) == x % 0x100 + 0x100 * And(x / 0x100, m)
  {
    hide And;
    Ones4(x, 16 * m + 15);
    Ones4(x / 16, m);
    assert x / 16 / 16 == x / 0x100;
  }

  lemma Zeros2(x: nat, m: nat)
    ensures And(x, 4 * m) == 4 * And(x / 4, m)
  {
    hide And;
    OneBit(x, 2 * m);
    OneBit(x / 2, m);
    assert x / 2 / 2 == x / 4;
  }

  lemma Zeros8(x: nat, m: nat)
    ensures And(x, 0x100 * m) == 0x100 * And(x / 0x100, m)
  {
    hide And;
    Zeros2(x, 64 * m);
    Zeros2(x / 4, 16 * m);
    Zeros2(x / 16, 4 * m);
    Zeros2(x / 64, m);
    assert x / 4 / 4 == x / 16 && x / 16 / 4 == x / 64 && x / 64 / 4 == x / 0x100;
  }

  const EVEN: nat := 0x00ff00ff
  const ODD: nat := 0xff00ff00

  /** Bytes 0 and 2 of a word, and bytes 1 and 3 in their place. */
  function EvenBytes(x: nat): (r: u32) {
    x % 0x100 + x / 0x1_0000 % 0x100 * 0x1_0000
  }

  function OddBytes(x: nat): u32 {
    EvenBytes(x / 0x100)
  }

  lemma MasksAreBytes(x: nat)
    ensures And(x, EVEN) == EvenBytes(x)
    ensures And(x, ODD) == OddBytes(x) * 0x100 && And(x, ODD) / 0x100 == OddBytes(x) == And(x / 0x100, EVEN)
  {
    hide And;
    EvenMask(x);
    EvenMask(x / 0x100);
    Zeros8(x, EVEN);
  }

  lemma EvenMask(x: nat)
    ensures And(x, EVEN) == EvenBytes(x)
  {
    hide And;
    Ones8(x, 0xff00);
    Zeros8(x / 0x100, 0xff);
    Ones8(x / 0x100 / 0x100, 0);
    assert And(x / 0x100 / 0x100 / 0x100, 0) == 0;
    assert x / 0x100 / 0x100 == x / 0x1_0000;
  }

  /** Odd bytes and even bytes go together without a carry. */
  lemma OddOrEven(x: nat, y: nat)
    ensures Or(And(x, ODD), And(y, EVEN)) == And(x, ODD) + And(y, EVEN)
  {
    hide And, Or;
    MasksApart();
    AndApart(x, ODD, y, EVEN);
    OrIsSum(And(x, ODD), And(y, EVEN));
  }

  lemma MasksApart()
    ensures And(ODD, EVEN) == 0
  {
    hide And;
    MasksAreBytes(ODD);
  }

  // ----- the two packed forms ------------------------------------------------

  function Wrap32(x: int): u32 {
    x % 0x1_0000_0000
  }

  function Wrap64(x: int): (r: nat) {
    x % 0x1_0000_0000_0000_0000
  }

  /** Two channels at a time, in 32 bits. */
  function Mix32(a: u32, b: u32, s: u32): u32 {
    var af, bf := Wrap32(256 - s), s;
    var al, ah := And(a, EVEN), And(a, ODD) / 0x100;
    var bl, bh := And(b, EVEN), And(b, ODD) / 0x100;
    var ml := Wrap32(al * af + bl * bf);
    var mh := Wrap32(ah * af + bh * bf);
    Or(And(mh, ODD), And(ml, ODD) / 0x100)
  }

  /** All four channels at a time, in 64 bits. */
  function Mix64(a: u32, b: u32, s: u32): u32 {
    var af, bf := Wrap32(256 - s), s;
    var al := Or(And(a, EVEN), And(a, ODD) * 0x100_0000);
    var bl := Or(And(b, EVEN), And(b, ODD) * 0x100_0000);
    var mix := Wrap64(al * af + bl * bf);
    Or(And(mix / 0x1_0000_0000, ODD), And(mix, ODD) / 0x100)
  }

  // ----- channels ------------------------------------------------------------

  /** Channel c of a colour, the lowest byte first. */
  function Channel(x: u32, c: nat): (r: int)
    requires c < 4
    ensures 0 <= r < 0x100
  {
    if c == 0 then x % 0x100
    else if c == 1 then x / 0x100 % 0x100
    else if c == 2 then x / 0x1_0000 % 0x100
    else x / 0x100_0000
  }

  /** The weighted sum of two channel values. */
  function Weighted(x: int, y: int, s: int): int {
    x * (256 - s) + y * s
  }

  lemma LaneFits(x: int, y: int, s: int)
    requires 0 <= x <= 0xff && 0 <= y <= 0xff && 0 <= s <= 256
    ensures 0 <= Weighted(x, y, s) <= 0xff00
  {
    assert 0 <= x * (256 - s) && 0 <= (0xff - x) * (256 - s);
    assert 0 <= y * s && 0 <= (0xff - y) * s;
  }

  lemma TwoLanes(x0: int, x1: int, y0: int, y1: int, s: int)
    ensures Weighted(x0 + x1 * 0x1_0000, y0 + y1 * 0x1_0000, s) == Weighted(x0, y0, s) + Weighted(x1, y1, s) * 0x1_0000
  {
  }

  lemma Bytes(x: u32)
    ensures EvenBytes(x) == Channel(x, 0) + Channel(x, 2) * 0x1_0000
    ensures OddBytes(x) == Channel(x, 1) + Channel(x, 3) * 0x1_0000
  {
  }

  lemma Cut8(lo: int, hi: int)
    requires 0 <= lo < 0x100
    ensures (lo + hi * 0x100) / 0x100 == hi && (lo + hi * 0x100) % 0x100 == lo
  {
  }

  lemma Cut16(lo: int, hi: int)
    requires 0 <= lo < 0x1_0000
    ensures (lo + hi * 0x1_0000) / 0x1_0000 == hi
  {
  }

  /** The upper bytes of two lanes. */
  lemma UpperBytes(p: int, q: int)
    requires 0 <= p <= 0xff00 && 0 <= q <= 0xff00
    ensures OddBytes(p + q * 0x1_0000) == p / 0x100 + q / 0x100 * 0x1_0000
    ensures 0 <= p + q * 0x1_0000 < 0x1_0000_0000
  {
    var p1, q1, q0 := p / 0x100, q / 0x100, q % 0x100;
    Cut8(p % 0x100, p1 + q * 0x100);
    Cut8(p1, q);
    Cut16(p1 + q0 * 0x100, q1);
  }

  lemma Put(c0: int, c1: int, c2: int, c3: int)
    requires 0 <= c0 <= 0xff && 0 <= c1 <= 0xff && 0 <= c2 <= 0xff && 0 <= c3 <= 0xff
    ensures var x := (c1 + c3 * 0x1_0000) * 0x100 + (c0 + c2 * 0x1_0000);
            && 0 <= x < 0x1_0000_0000
            && Channel(x, 0) == c0 && Channel(x, 1) == c1 && Channel(x, 2) == c2 && Channel(x, 3) == c3
  {
    Cut8(c0, c1 + (c2 + c3 * 0x100) * 0x100);
    Cut8(c1, c2 + c3 * 0x100);
    Cut8(c2, c3);
    Cut16(c0 + c1 * 0x100, c2 + c3 * 0x100);
  }

  /** What the packed forms compute: every channel mixed by itself. */
  function Mixed(a: u32, b: u32, s: int, c: nat): int
    requires c < 4
  {
    Weighted(Channel(a, c), Channel(b, c), s)
  }

  lemma MixedFits(a: u32, b: u32, s: u32, c: nat)
    requires s <= 256 && c < 4
    ensures 0 <= Mixed(a, b, s, c) <= 0xff00
  {
    LaneFits(Channel(a, c), Channel(b, c), s);
  }

  /** The sums of the 32-bit form neither overflow nor carry into one another. */
  lemma Sums32(a: u32, b: u32, s: u32)
    requires s <= 256
    ensures Weighted(EvenBytes(a), EvenBytes(b), s) == Mixed(a, b, s, 0) + Mixed(a, b, s, 2) * 0x1_0000
    ensures Weighted(OddBytes(a), OddBytes(b), s) == Mixed(a, b, s, 1) + Mixed(a, b, s, 3) * 0x1_0000
  {
    hide Channel, EvenBytes, OddBytes, Weighted;
    Bytes(a);
    Bytes(b);
    TwoLanes(Channel(a, 0), Channel(a, 2), Channel(b, 0), Channel(b, 2), s);
    TwoLanes(Channel(a, 1), Channel(a, 3), Channel(b, 1), Channel(b, 3), s);
  }

  /** The upper bytes of two sums, put together. */
  function Collected(lo: nat, hi: nat): u32 {
    OddBytes(hi) * 0x100 + OddBytes(lo)
  }

  lemma CollectedIs(lo: nat, hi: nat)
    ensures Or(And(hi, ODD), And(lo, ODD) / 0x100) == Collected(lo, hi)
  {
    hide And, Or, OddBytes, EvenBytes;
    MasksAreBytes(lo);
    MasksAreBytes(hi);
    OddOrEven(hi, lo / 0x100);
  }

  lemma Mix32Is(a: u32, b: u32, s: u32)
    requires s <= 256
    ensures Mix32(a, b, s) ==
            Collected(Wrap32(Weighted(EvenBytes(a), EvenBytes(b), s)), Wrap32(Weighted(OddBytes(a), OddBytes(b), s)))
  {
    hide And, Or, EvenBytes, OddBytes, Wrap32, Collected;
    SmallWrap(256 - s);
    MasksAreBytes(a);
    MasksAreBytes(b);
    CollectedIs(Wrap32(Weighted(EvenBytes(a), EvenBytes(b), s)), Wrap32(Weighted(OddBytes(a), OddBytes(b), s)));
  }

  lemma SmallWrap(x: int)
    requires 0 <= x < 0x1_0000_0000
    ensures Wrap32(x) == x
  {
  }

  lemma Collects(lo: int, hi: int, m0: int, m1: int, m2: int, m3: int, c: nat)
    requires 0 <= m0 <= 0xff00 && 0 <= m1 <= 0xff00 && 0 <= m2 <= 0xff00 && 0 <= m3 <= 0xff00 && c < 4
    requires lo == m0 + m2 * 0x1_0000 && hi == m1 + m3 * 0x1_0000
    ensures 0 <= lo < 0x1_0000_0000 && 0 <= hi < 0x1_0000_0000
    ensures Channel(Collected(lo, hi), c) ==
            (if c == 0 then m0 else if c == 1 then m1 else if c == 2 then m2 else m3) / 256
  {
    hide Channel, OddBytes;
    UpperBytes(m0, m2);
    UpperBytes(m1, m3);
    Put(m0 / 0x100, m1 / 0x100, m2 / 0x100, m3 / 0x100);
  }

  lemma Mix32Channels(a: u32, b: u32, s: u32, c: nat)
    requires s <= 256 && c < 4
    ensures Channel(Mix32(a, b, s), c) == (Channel(a, c) * (256 - s) + Channel(b, c) * s) / 256
  {
    hide Channel, EvenBytes, OddBytes, Mixed, Weighted, Collected, Mix32;
    var m0, m1, m2, m3 := Mixed(a, b, s, 0), Mixed(a, b, s, 1), Mixed(a, b, s, 2), Mixed(a, b, s, 3);
    MixedFits(a, b, s, 0); MixedFits(a, b, s, 1); MixedFits(a, b, s, 2); MixedFits(a, b, s, 3);
    Sums32(a, b, s);
    Mix32Is(a, b, s);
    Collects(Weighted(EvenBytes(a), EvenBytes(b), s), Weighted(OddBytes(a), OddBytes(b), s), m0, m1, m2, m3, c);
    MixedIs(a, b, s, c);
  }

  lemma MixedIs(a: u32, b: u32, s: int, c: nat)
    requires c < 4
    ensures Mixed(a, b, s, c) == Channel(a, c) * (256 - s) + Channel(b, c) * s
  {
  }

  /** The 64-bit form computes the same. */
  lemma Mix64IsMix32(a: u32, b: u32, s: u32)
    requires s <= 256
    ensures Mix64(a, b, s) == Mix32(a, b, s)
  {
    hide EvenBytes, OddBytes, Mixed, Weighted, Collected, Mix32, Mix64, Wrap64;
    var lo, hi := Weighted(EvenBytes(a), EvenBytes(b), s), Weighted(OddBytes(a), OddBytes(b), s);
    MixedFits(a, b, s, 0); MixedFits(a, b, s, 1); MixedFits(a, b, s, 2); MixedFits(a, b, s, 3);
    Sums32(a, b, s);
    Mix32Is(a, b, s);
    Mix64Is(a, b, s);
    Halves(lo, hi);
  }

  lemma Mix64Is(a: u32, b: u32, s: u32)
    requires s <= 256
    ensures var mix := Wrap64(Weighted(EvenBytes(a), EvenBytes(b), s) +
                              Weighted(OddBytes(a), OddBytes(b), s) * 0x1_0000_0000);
            Mix64(a, b, s) == Collected(mix % 0x1_0000_0000, mix / 0x1_0000_0000)
  {
    hide And, Or, EvenBytes, OddBytes, Wrap64, Wrap32, Collected;
    SmallWrap(256 - s);
    SpreadIsSum(a);
    SpreadIsSum(b);
    FourLanes(EvenBytes(a), OddBytes(a), EvenBytes(b), OddBytes(b), 256 - s, s);
    var mix := Wrap64(Weighted(EvenBytes(a), EvenBytes(b), s) + Weighted(OddBytes(a), OddBytes(b), s) * 0x1_0000_0000);
    CollectedIs(mix, mix / 0x1_0000_0000);
    LowWord(mix, mix / 0x1_0000_0000);
  }

  /** Bytes 1 and 3 are in the low word. */
  lemma LowWord(lo: nat, hi: nat)
    ensures Collected(lo, hi) == Collected(lo % 0x1_0000_0000, hi)
  {
    hide EvenBytes;
    var q, r := lo / 0x1_0000_0000, lo % 0x1_0000_0000;
    Shifted(r, q * 0x100_0000);
    EvenAbove(r / 0x100, q);
  }

  lemma Shifted(r: nat, n: nat)
    ensures (r + n * 0x100) / 0x100 == r / 0x100 + n && (r + n * 0x100) % 0x100 == r % 0x100
  {
  }

  lemma EvenAbove(x: nat, n: nat)
    ensures EvenBytes(x + n * 0x100_0000) == EvenBytes(x)
  {
    Shifted(x, n * 0x1_0000);
    Shifted(x / 0x100, n * 0x100);
    Shifted(x / 0x1_0000, n);
    ByteTwo(x);
    ByteTwo(x + n * 0x100_0000);
  }

  lemma ByteTwo(x: nat)
    ensures x / 0x1_0000 == x / 0x100 / 0x100
  {
  }

  /** Spreading the channels over 64 bits. */
  lemma SpreadIsSum(x: u32)
    ensures Or(And(x, EVEN), And(x, ODD) * 0x100_0000) == EvenBytes(x) + OddBytes(x) * 0x1_0000_0000
  {
    hide And, Or, EvenBytes, OddBytes;
    MasksAreBytes(x);
    WordsApart(And(x, EVEN), OddBytes(x));
    OrIsSum(And(x, EVEN), OddBytes(x) * 0x1_0000_0000);
  }

  /** A word has no bit in common with the words above it. */
  lemma WordsApart(x: u32, y: nat)
    ensures And(x, y * 0x1_0000_0000) == 0
  {
    hide And;
    Zeros8(x, y * 0x100_0000);
    Zeros8(x / 0x100, y * 0x1_0000);
    Zeros8(x / 0x100 / 0x100, y * 0x100);
    Zeros8(x / 0x100 / 0x100 / 0x100, y);
    assert x / 0x100 / 0x100 / 0x100 / 0x100 == 0;
  }

  lemma FourLanes(al: int, ah: int, bl: int, bh: int, f: int, s: int)
    ensures (al + ah * 0x1_0000_0000) * f + (bl + bh * 0x1_0000_0000) * s
            == (al * f + bl * s) + (ah * f + bh * s) * 0x1_0000_0000
  {
  }

  lemma Halves(lo: int, hi: int)
    requires 0 <= lo < 0x1_0000_0000 && 0 <= hi < 0x1_0000_0000
    ensures var mix := lo + hi * 0x1_0000_0000;
            Wrap64(mix) == mix && mix / 0x1_0000_0000 == hi && mix % 0x1_0000_0000 == lo
  {
  }

  /** The ends of the scale. */
  lemma MixEnds(a: u32, b: u32)
    ensures Mix32(a, b, 0) == a && Mix32(a, b, 256) == b
  {
    hide Channel, Mix32;
    forall c: nat | c < 4
      ensures Channel(Mix32(a, b, 0), c) == Channel(a, c)
      ensures Channel(Mix32(a, b, 256), c) == Channel(b, c)
    {
      Mix32Channels(a, b, 0, c);
      Mix32Channels(a, b, 256, c);
    }
    FromChannels(Mix32(a, b, 0));
    FromChannels(Mix32(a, b, 256));
    FromChannels(a);
    FromChannels(b);
  }

  lemma FromChannels(x: u32)
    ensures x == Channel(x, 0) + Channel(x, 1) * 0x100 + Channel(x, 2) * 0x1_0000 + Channel(x, 3) * 0x100_0000
  {
  }
}
