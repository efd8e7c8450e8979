/** Pixel packing of the frame buffer driver: three 8-bit channels, each masked and shifted to
    its place in a 32-bit word that is stored little-endian.  Masks and shifts come from the
    mode information, so nothing is assumed of them; whether a pixel survives the way there and
    back depends on them. */
module Pixels {

  /** EFI_GRAPHICS_OUTPUT_BLT_PIXEL, in memory order. */
  datatype BltPixel = BltPixel(blue: bv8, green: bv8, red: bv8, reserved: bv8)

  // ----- one channel: mask m at bit position p.  A shift of 32 or more is undefined in C.

  function Shifted(m: bv8, p: bv32): bv32
    requires p < 32
  {
    (m as bv32) << p
  }

  function Put(x: bv8, m: bv8, p: bv32): bv32
    requires p < 32
  {
    ((x & m) as bv32) << p
  }

  function Get(v: bv32, m: bv8, p: bv32): bv8
    requires p < 32
  {
    (((v >> p) & (m as bv32)) & 0xFF) as bv8
  }

  /** The mask loses no bits at the top of the word. */
  predicate Whole(m: bv8, p: bv32)
    requires p < 32
  {
    Shifted(m, p) >> p == m as bv32
  }

  // ----- the whole pixel

  /** FB_VIDEO_COLOR_PLACEMENT of the three channels. */
  datatype Layout = Layout(redMask: bv8, redAt: bv32, greenMask: bv8, greenAt: bv32, blueMask: bv8, blueAt: bv32)
  {
    predicate Valid() { redAt < 32 && greenAt < 32 && blueAt < 32 }
  }

  function Pack(l: Layout, px: BltPixel): bv32
    requires l.Valid()
  {
    Put(px.red, l.redMask, l.redAt) | Put(px.green, l.greenMask, l.greenAt) | Put(px.blue, l.blueMask, l.blueAt)
  }

  function Unpack(l: Layout, v: bv32): BltPixel
    requires l.Valid()
  {
    BltPixel(Get(v, l.blueMask, l.blueAt), Get(v, l.greenMask, l.greenAt), Get(v, l.redMask, l.redAt), 0)
  }

  /** Each channel reduced to its mask, Reserved zero. */
  function Masked(l: Layout, px: BltPixel): BltPixel {
    BltPixel(px.blue & l.blueMask, px.green & l.greenMask, px.red & l.redMask, 0)
  }

  /** Two masks do not meet in the word. */
  predicate Apart(m: bv8, p: bv32, n: bv8, q: bv32)
    requires p < 32 && q < 32
  {
    Shifted(m, p) & Shifted(n, q) == 0
  }

  predicate Separate(l: Layout)
    requires l.Valid()
  {
    && Whole(l.redMask, l.redAt) && Whole(l.greenMask, l.greenAt) && Whole(l.blueMask, l.blueAt)
    && Apart(l.redMask, l.redAt, l.greenMask, l.greenAt) && Apart(l.redMask, l.redAt, l.blueMask, l.blueAt)
    && Apart(l.greenMask, l.greenAt, l.redMask, l.redAt) && Apart(l.greenMask, l.greenAt, l.blueMask, l.blueAt)
    && Apart(l.blueMask, l.blueAt, l.redMask, l.redAt) && Apart(l.blueMask, l.blueAt, l.greenMask, l.greenAt)
  }

  /** A channel is read back from the word it shares with two others that lie apart from it. */
  lemma ChannelReturns(x: bv8, m: bv8, p: bv32, y: bv8, n: bv8, q: bv32, z: bv8, o: bv8, r: bv32)
    requires p < 32 && q < 32 && r < 32 && Whole(m, p)
    requires Apart(m, p, n, q) && Apart(m, p, o, r)
    ensures Get(Put(x, m, p) | Put(y, n, q) | Put(z, o, r), m, p) == x & m
    ensures Get(Put(y, n, q) | Put(x, m, p) | Put(z, o, r), m, p) == x & m
    ensures Get(Put(y, n, q) | Put(z, o, r) | Put(x, m, p), m, p) == x & m
  {
  }

  lemma RedReturns(l: Layout, px: BltPixel)
    requires l.Valid() && Separate(l)
    ensures Get(Pack(l, px), l.redMask, l.redAt) == px.red & l.redMask
  {
    hide Get, Put, Shifted, Whole, Apart;
    ChannelReturns(px.red, l.redMask, l.redAt, px.green, l.greenMask, l.greenAt, px.blue, l.blueMask, l.blueAt);
  }

  lemma GreenReturns(l: Layout, px: BltPixel)
    requires l.Valid() && Separate(l)
    ensures Get(Pack(l, px), l.greenMask, l.greenAt) == px.green & l.greenMask
  {
    hide Get, Put, Shifted, Whole, Apart;
    ChannelReturns(px.green, l.greenMask, l.greenAt, px.red, l.redMask, l.redAt, px.blue, l.blueMask, l.blueAt);
  }

  lemma BlueReturns(l: Layout, px: BltPixel)
    requires l.Valid() && Separate(l)
    ensures Get(Pack(l, px), l.blueMask, l.blueAt) == px.blue & l.blueMask
  {
    hide Get, Put, Shifted, Whole, Apart;
    ChannelReturns(px.blue, l.blueMask, l.blueAt, px.red, l.redMask, l.redAt, px.green, l.greenMask, l.greenAt);
  }

  /** Packing and unpacking returns every channel under its mask, Reserved zero. */
  lemma SeparateRoundTrips(l: Layout, px: BltPixel)
    requires l.Valid() && Separate(l)
    ensures Unpack(l, Pack(l, px)) == Masked(l, px)
  {
    hide Get, Pack, Separate;
    RedReturns(l, px);
    GreenReturns(l, px);
    BlueReturns(l, px);
  }

  lemma PutNothing(m: bv8, p: bv32)
    requires p < 32
    ensures Put(0, m, p) == 0
  {
  }

  lemma PutEverything(m: bv8, p: bv32)
    requires p < 32
    ensures Put(0xFF, m, p) == Shifted(m, p)
  {
  }

  /** A channel that returns its own mask when full has a whole mask. */
  lemma ReturnsOnlyIfWhole(m: bv8, p: bv32)
    requires p < 32 && Get(Shifted(m, p), m, p) == m
    ensures Whole(m, p)
  {
  }

  /** A channel that stays dark while another is full lies apart from it. */
  lemma DarkOnlyIfApart(m: bv8, p: bv32, n: bv8, q: bv32)
    requires p < 32 && q < 32 && Whole(n, q) && Get(Shifted(m, p), n, q) == 0
    ensures Apart(m, p, n, q)
  {
  }

  lemma OneOfThree(a: bv32)
    ensures a | 0 | 0 == a && 0 | a | 0 == a && 0 | 0 | a == a
  {
  }

  /** The pixels of one full channel. */
  lemma FullRed(l: Layout)
    requires l.Valid()
    ensures Pack(l, BltPixel(0, 0, 0xFF, 0)) == Shifted(l.redMask, l.redAt)
  {
    hide Put, Shifted;
    PutEverything(l.redMask, l.redAt);
    PutNothing(l.greenMask, l.greenAt);
    PutNothing(l.blueMask, l.blueAt);
    OneOfThree(Shifted(l.redMask, l.redAt));
  }

  lemma FullGreen(l: Layout)
    requires l.Valid()
    ensures Pack(l, BltPixel(0, 0xFF, 0, 0)) == Shifted(l.greenMask, l.greenAt)
  {
    hide Put, Shifted;
    PutNothing(l.redMask, l.redAt);
    PutEverything(l.greenMask, l.greenAt);
    PutNothing(l.blueMask, l.blueAt);
    OneOfThree(Shifted(l.greenMask, l.greenAt));
  }

  lemma FullBlue(l: Layout)
    requires l.Valid()
    ensures Pack(l, BltPixel(0xFF, 0, 0, 0)) == Shifted(l.blueMask, l.blueAt)
  {
    hide Put, Shifted;
    PutNothing(l.redMask, l.redAt);
    PutNothing(l.greenMask, l.greenAt);
    PutEverything(l.blueMask, l.blueAt);
    OneOfThree(Shifted(l.blueMask, l.blueAt));
  }

  /** The round trip holds for every pixel exactly when no shifted mask is cut off at the top of
      the word and no two of them meet. */
  lemma RoundTripIffSeparate(l: Layout)
    requires l.Valid()
    ensures (forall px :: Unpack(l, Pack(l, px)) == Masked(l, px)) <==> Separate(l)
  {
    hide Pack, Unpack, Masked, Separate;
    if Separate(l) {
      forall px ensures Unpack(l, Pack(l, px)) == Masked(l, px) {
        SeparateRoundTrips(l, px);
      }
    }
    if forall px :: Unpack(l, Pack(l, px)) == Masked(l, px) {
      RoundTripNeedsSeparate(l, BltPixel(0, 0, 0xFF, 0), BltPixel(0, 0xFF, 0, 0), BltPixel(0xFF, 0, 0, 0));
    }
  }

  lemma RoundTripNeedsSeparate(l: Layout, r: BltPixel, g: BltPixel, b: BltPixel)
    requires l.Valid()
    requires r == BltPixel(0, 0, 0xFF, 0) && g == BltPixel(0, 0xFF, 0, 0) && b == BltPixel(0xFF, 0, 0, 0)
    requires Unpack(l, Pack(l, r)) == Masked(l, r)
    requires Unpack(l, Pack(l, g)) == Masked(l, g)
    requires Unpack(l, Pack(l, b)) == Masked(l, b)
    ensures Separate(l)
  {
    hide Get, Put, Shifted, Whole, Apart, Pack;
    FullRed(l);
    FullGreen(l);
    FullBlue(l);
    ReturnsOnlyIfWhole(l.redMask, l.redAt);
    ReturnsOnlyIfWhole(l.greenMask, l.greenAt);
    ReturnsOnlyIfWhole(l.blueMask, l.blueAt);
    DarkOnlyIfApart(l.redMask, l.redAt, l.greenMask, l.greenAt);
    DarkOnlyIfApart(l.redMask, l.redAt, l.blueMask, l.blueAt);
    DarkOnlyIfApart(l.greenMask, l.greenAt, l.redMask, l.redAt);
    DarkOnlyIfApart(l.greenMask, l.greenAt, l.blueMask, l.blueAt);
    DarkOnlyIfApart(l.blueMask, l.blueAt, l.redMask, l.redAt);
    DarkOnlyIfApart(l.blueMask, l.blueAt, l.greenMask, l.greenAt);
  }

  // ----- bytes of a pixel word

  /** The word as stored: four bytes, least significant first. */
  function WordBytes(v: bv32): (s: seq<bv8>)
    ensures |s| == 4
  {
    [(v & 0xFF) as bv8, ((v >> 8) & 0xFF) as bv8, ((v >> 16) & 0xFF) as bv8, (v >> 24) as bv8]
  }

  function Word(b0: bv8, b1: bv8, b2: bv8, b3: bv8): bv32 {
    (b0 as bv32) | ((b1 as bv32) << 8) | ((b2 as bv32) << 16) | ((b3 as bv32) << 24)
  }

  lemma WordRoundTrip(v: bv32)
    ensures var s := WordBytes(v); Word(s[0], s[1], s[2], s[3]) == v
  {
  }

  // ----- the word bit by bit

  predicate BitOf(v: bv32, i: bv32)
    requires i < 32
  {
    (v >> i) & 1 == 1
  }

  predicate ByteBit(b: bv8, i: bv32)
    requires i < 8
  {
    BitOf(b as bv32, i)
  }

  /** Channel x, under its mask m and shifted to bit p, sets bit i. */
  predicate ChannelBit(x: bv8, m: bv8, p: bv32, i: bv32)
    requires p < 32 && i < 32
  {
    p <= i && BitOf((x & m) as bv32, i - p)
  }

  lemma PutBit(x: bv8, m: bv8, p: bv32, i: bv32, v: bv32)
    requires p < 32 && i < 32 && v == Put(x, m, p)
    ensures BitOf(v, i) <==> ChannelBit(x, m, p, i)
  {
  }

  lemma OrBit(a: bv32, b: bv32, c: bv32, i: bv32, v: bv32)
    requires i < 32 && v == a | b | c
    ensures BitOf(v, i) <==> BitOf(a, i) || BitOf(b, i) || BitOf(c, i)
  {
  }

  /** Some channel that covers bit i of a packed pixel sets it. */
  predicate PixelBit(l: Layout, px: BltPixel, i: bv32)
    requires l.Valid() && i < 32
  {
    || ChannelBit(px.red, l.redMask, l.redAt, i)
    || ChannelBit(px.green, l.greenMask, l.greenAt, i)
    || ChannelBit(px.blue, l.blueMask, l.blueAt, i)
  }

  lemma ThreeBits(l: Layout, px: BltPixel, i: bv32, r: bv32, g: bv32, b: bv32, v: bv32)
    requires l.Valid() && i < 32 && v == r | g | b
    requires r == Put(px.red, l.redMask, l.redAt) && g == Put(px.green, l.greenMask, l.greenAt)
    requires b == Put(px.blue, l.blueMask, l.blueAt)
    ensures BitOf(v, i) <==> PixelBit(l, px, i)
  {
    hide BitOf, Put, ChannelBit;
    PutBit(px.red, l.redMask, l.redAt, i, r);
    PutBit(px.green, l.greenMask, l.greenAt, i, g);
    PutBit(px.blue, l.blueMask, l.blueAt, i, b);
    OrBit(r, g, b, i, v);
  }

  lemma PackBit(l: Layout, px: BltPixel, i: bv32, v: bv32)
    requires l.Valid() && i < 32 && v == Pack(l, px)
    ensures BitOf(v, i) <==> PixelBit(l, px, i)
  {
    hide BitOf, Put, ChannelBit, PixelBit;
    ThreeBits(l, px, i, Put(px.red, l.redMask, l.redAt), Put(px.green, l.greenMask, l.greenAt),
              Put(px.blue, l.blueMask, l.blueAt), v);
  }

  /** The number of the lowest bit of byte k: 8 * k. */
  function FirstBit(k: nat): bv32
    requires k < 4
  {
    if k == 0 then 0 else if k == 1 then 8 else if k == 2 then 16 else 24
  }

  /** Bit b of byte k of a stored word is bit 8 * k + b of the word. */
  lemma StoredBit(v: bv32, k: nat, b: bv32, y: bv8, i: bv32)
    requires k < 4 && b < 8 && y == WordBytes(v)[k] && i == FirstBit(k) + b
    ensures i < 32 && (ByteBit(y, b) <==> BitOf(v, i))
  {
    if k == 0 {
      LowByte(v, b, y);
    } else if k == 1 {
      SecondByte(v, b, y, i);
    } else if k == 2 {
      ThirdByte(v, b, y, i);
    } else {
      HighByte(v, b, y, i);
    }
  }

  lemma LowByte(v: bv32, b: bv32, y: bv8)
    requires b < 8 && y == (v & 0xFF) as bv8
    ensures ByteBit(y, b) <==> BitOf(v, b)
  {
  }

  lemma SecondByte(v: bv32, b: bv32, y: bv8, i: bv32)
    requires b < 8 && y == ((v >> 8) & 0xFF) as bv8 && i == 8 + b
    ensures ByteBit(y, b) <==> BitOf(v, i)
  {
  }

  lemma ThirdByte(v: bv32, b: bv32, y: bv8, i: bv32)
    requires b < 8 && y == ((v >> 16) & 0xFF) as bv8 && i == 16 + b
    ensures ByteBit(y, b) <==> BitOf(v, i)
  {
  }

  lemma HighByte(v: bv32, b: bv32, y: bv8, i: bv32)
    requires b < 8 && y == (v >> 24) as bv8 && i == 24 + b
    ensures ByteBit(y, b) <==> BitOf(v, i)
  {
  }

  /** Byte k of a stored pixel: its bit b is bit 8 * k + b of the channel that covers that. */
  ghost predicate HoldsBits(l: Layout, px: BltPixel, k: nat, y: bv8)
    requires l.Valid() && k < 4
  {
    forall b: bv32 | b < 8 :: ByteBit(y, b) <==> PixelBit(l, px, FirstBit(k) + b)
  }

  lemma PackedByte(l: Layout, px: BltPixel, k: nat, y: bv8)
    requires l.Valid() && k < 4 && y == WordBytes(Pack(l, px))[k]
    ensures HoldsBits(l, px, k, y)
  {
    hide BitOf, ByteBit, Pack, PixelBit, WordBytes;
    var v := Pack(l, px);
    forall b: bv32 | b < 8 ensures ByteBit(y, b) <==> PixelBit(l, px, FirstBit(k) + b) {
      StoredBit(v, k, b, y, FirstBit(k) + b);
      PackBit(l, px, FirstBit(k) + b, v);
    }
  }

  // ----- a channel that is one byte

  lemma ByteIsChannel(v: bv32, k: nat, y: bv8)
    requires k < 4 && y == WordBytes(v)[k]
    ensures Get(v, 0xFF, FirstBit(k)) == y
  {
    if k == 0 {} else if k == 1 {} else if k == 2 {} else {}
  }

  /** A channel with mask 0xFF whose place is byte k is byte k of the stored pixel. */
  lemma WholeByte(l: Layout, px: BltPixel, k: nat, y: bv8)
    requires l.Valid() && Separate(l) && k < 4 && y == WordBytes(Pack(l, px))[k]
    ensures l.redMask == 0xFF && l.redAt == FirstBit(k) ==> y == px.red
    ensures l.greenMask == 0xFF && l.greenAt == FirstBit(k) ==> y == px.green
    ensures l.blueMask == 0xFF && l.blueAt == FirstBit(k) ==> y == px.blue
  {
    hide Get, Pack, WordBytes, Separate;
    ByteIsChannel(Pack(l, px), k, y);
    RedReturns(l, px);
    GreenReturns(l, px);
    BlueReturns(l, px);
  }

  // ----- reading

  lemma LoadedBit(s: seq<bv8>, k: nat, c: bv32, v: bv32, i: bv32)
    requires |s| == 4 && k < 4 && c < 8 && v == Word(s[0], s[1], s[2], s[3]) && i == FirstBit(k) + c
    ensures i < 32 && (BitOf(v, i) <==> ByteBit(s[k], c))
  {
    if k == 0 {} else if k == 1 {} else if k == 2 {} else {}
  }

  lemma GetBit(v: bv32, m: bv8, p: bv32, b: bv32, x: bv8, i: bv32)
    requires p < 32 && b < 8 && x == Get(v, m, p) && i == p + b
    ensures ByteBit(x, b) <==> ByteBit(m, b) && i < 32 && BitOf(v, i)
  {
  }

  /** Bit b of a channel whose place is bit p, and bit c of byte k of a word, are the word's bit i. */
  predicate SameBit(p: bv32, b: bv32, k: nat, c: bv32, i: bv32) {
    b < 8 && k < 4 && c < 8 && i == p + b && i == FirstBit(k) + c
  }

  /** Channel x, read under mask m from bit p on of the word that four bytes make: its bits are those of
      the bytes, and bits beyond the word are zero. */
  ghost predicate ReadsBits(m: bv8, p: bv32, s: seq<bv8>, x: bv8)
    requires |s| == 4 && p < 32
  {
    && (forall b, k: nat, c, i | SameBit(p, b, k, c, i) :: ByteBit(x, b) <==> ByteBit(m, b) && ByteBit(s[k], c))
    && (forall b: bv32 | b < 8 && p + b >= 32 :: !ByteBit(x, b))
  }

  lemma BitComesFrom(m: bv8, p: bv32, s: seq<bv8>, v: bv32, x: bv8, b: bv32, k: nat, c: bv32, i: bv32)
    requires |s| == 4 && p < 32 && v == Word(s[0], s[1], s[2], s[3]) && x == Get(v, m, p)
    requires SameBit(p, b, k, c, i)
    ensures b < 8 && k < 4 && c < 8 && (ByteBit(x, b) <==> ByteBit(m, b) && ByteBit(s[k], c))
  {
    hide BitOf, ByteBit, Get, Word, FirstBit;
    GetBit(v, m, p, b, x, i);
    LoadedBit(s, k, c, v, i);
  }

  lemma BeyondTheWord(m: bv8, p: bv32, v: bv32, x: bv8, b: bv32, i: bv32)
    requires p < 32 && b < 8 && x == Get(v, m, p) && i == p + b && i >= 32
    ensures !ByteBit(x, b)
  {
    hide BitOf, ByteBit, Get;
    GetBit(v, m, p, b, x, i);
  }

  lemma ReadChannel(m: bv8, p: bv32, s: seq<bv8>, v: bv32, x: bv8)
    requires |s| == 4 && p < 32 && v == Word(s[0], s[1], s[2], s[3]) && x == Get(v, m, p)
    ensures ReadsBits(m, p, s, x)
  {
    hide BitOf, ByteBit, Get, Word, SameBit;
    forall b, k: nat, c, i | SameBit(p, b, k, c, i) ensures b < 8 && k < 4 && c < 8 && (ByteBit(x, b) <==> ByteBit(m, b) && ByteBit(s[k], c)) {
      BitComesFrom(m, p, s, v, x, b, k, c, i);
    }
    forall b: bv32 | b < 8 && p + b >= 32 ensures !ByteBit(x, b) {
      BeyondTheWord(m, p, v, x, b, p + b);
    }
  }

  lemma BytesOfWord(a: bv8, b: bv8, c: bv8, d: bv8, v: bv32)
    requires v == Word(a, b, c, d)
    ensures Get(v, 0xFF, 0) == a && Get(v, 0xFF, 8) == b && Get(v, 0xFF, 16) == c && Get(v, 0xFF, 24) == d
  {
  }

  /** A channel with mask 0xFF whose place is byte k is read from byte k. */
  lemma WholeByteRead(k: nat, s: seq<bv8>, v: bv32, x: bv8)
    requires |s| == 4 && k < 4 && v == Word(s[0], s[1], s[2], s[3]) && x == Get(v, 0xFF, FirstBit(k))
    ensures x == s[k]
  {
    hide Get, Word;
    BytesOfWord(s[0], s[1], s[2], s[3], v);
  }
}
