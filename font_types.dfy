/*
 * Value types shared by the font engine: the integer Vec2 and its operators,
 * the status constants, 32-bit colours, the rolling hash that keys the glyph
 * cache, and the Glyph record with its two comparison operators.
 */
module FontTypes {

  datatype Option<T> = None | Some(value: T)

  /** uint32_t: hash values, generation counters, colour words. */
  type U32 = x: int | 0 <= x < 0x1_0000_0000

  /** uint8_t / byte. */
  type Byte = x: int | 0 <= x < 0x100

  /** A single-byte `char` of std::string (bytes 0..255). */
  type Char8 = c: char | (c as int) < 256 witness ' '

  /** std::string over single-byte characters. */
  type String8 = seq<Char8>

  const NUL: Char8 := 0 as char

  /** Wraps an unbounded integer to uint32_t (C++ unsigned conversion). */
  function ToU32(x: int): U32 { x % 0x1_0000_0000 }

  // ---------------------------------------------------------------------
  // Status constants

  /** kInvalidIndex: the "not finalised" vertex/triangle count. */
  const InvalidIndex: nat := 0xffff_ffff
  /** Error code of success. */
  const EOk: int := 0
  /** Error code of a full glyph atlas. */
  const ENotEnoughMemory: int := -1

  // ---------------------------------------------------------------------
  // Vec2 (int2): value operators

  datatype Vec2 = Vec2(x: int, y: int)

  /** Vec2::null */
  const Zero: Vec2 := Vec2(0, 0)

  /** operator+(Vec2, Vec2) */
  function Add(ls: Vec2, rs: Vec2): Vec2 { Vec2(ls.x + rs.x, ls.y + rs.y) }

  /** operator-(Vec2, Vec2) */
  function Sub(ls: Vec2, rs: Vec2): Vec2 { Vec2(ls.x - rs.x, ls.y - rs.y) }

  /** operator+(Vec2, T): the scalar is added to both components. */
  function AddScalar(ls: Vec2, rs: int): Vec2 { Vec2(ls.x + rs, ls.y + rs) }

  /** operator-(Vec2, T): the scalar is subtracted from both components. */
  function SubScalar(ls: Vec2, rs: int): Vec2 { Vec2(ls.x - rs, ls.y - rs) }

  /** Adding the difference q - p to p lands on q: how a cached pen delta
      replays a layout. */
  lemma {:induction false} AddDifference(p: Vec2, q: Vec2)
    ensures Add(p, Sub(q, p)) == q
    ensures Sub(Add(p, q), q) == p
    ensures Add(p, Zero) == p && Sub(p, Zero) == p
  {
  }

  /** The scalar forms act on both components, and undo each other. */
  lemma {:induction false} ScalarForms(p: Vec2, s: int)
    ensures AddScalar(p, s) == Add(p, Vec2(s, s))
    ensures SubScalar(p, s) == Sub(p, Vec2(s, s))
    ensures SubScalar(AddScalar(p, s), s) == p
  {
  }

  /** A Vec2 living in memory, for the two operators that update one in place. */
  class Vec2Ref {
    var x: int
    var y: int

    function Value(): Vec2
      reads this
    {
      Vec2(x, y)
    }

    constructor (x0: int, y0: int)
      ensures Value() == Vec2(x0, y0)
    {
      x, y := x0, y0;
    }

    /** set(x, y): overwrites both components; returns the object itself. */
    method Set(nx: int, ny: int) returns (self: Vec2Ref)
      modifies this
      ensures Value() == Vec2(nx, ny)
      ensures self == this
    {
      x := nx;
      y := ny;
      self := this;
    }

    /** operator+=: adds componentwise into this object and returns it. */
    method AddAssign(rs: Vec2) returns (self: Vec2Ref)
      modifies this
      ensures Value() == Add(old(Value()), rs)
      ensures self == this
    {
      x := x + rs.x;
      y := y + rs.y;
      self := this;
    }
  }

  // ---------------------------------------------------------------------
  // Color32

  /** A packed colour; the union stores r in the low byte (little-endian). */
  datatype Color32 = Color32(value: U32)

  function Red(c: Color32): nat { c.value % 0x100 }
  function Green(c: Color32): nat { (c.value / 0x100) % 0x100 }
  function Blue(c: Color32): nat { (c.value / 0x1_0000) % 0x100 }
  function Alpha(c: Color32): nat { c.value / 0x100_0000 }

  const Black      := Color32(0xff00_0000)
  const White      := Color32(0xffff_ffff)
  const Grey       := Color32(0xff80_8080)
  const LightGrey  := Color32(0xffc0_c0c0)
  const DarkGrey   := Color32(0xff40_4040)
  const RedColor   := Color32(0xff00_00ff)
  const LightRed   := Color32(0xff67_17ff)
  const DarkRed    := Color32(0xff40_40c0)
  const GreenColor := Color32(0xff00_ff00)
  const LightGreen := Color32(0xff60_ffa0)
  const DarkGreen  := Color32(0xff00_8000)
  const BlueColor  := Color32(0xffff_0000)
  const LightBlue  := Color32(0xffff_a060)
  const DarkBlue   := Color32(0xff80_0000)
  const Yellow     := Color32(0xff00_ffff)
  const Orange     := Color32(0xff3a_96c4)

  /** The named colours are opaque and carry the channel their name says. */
  lemma {:induction false} PaletteChannels()
    ensures Alpha(White) == 255 && Red(White) == 255 && Green(White) == 255 && Blue(White) == 255
    ensures Red(RedColor) == 255 && Green(RedColor) == 0 && Blue(RedColor) == 0
    ensures Green(GreenColor) == 255 && Red(GreenColor) == 0 && Blue(GreenColor) == 0
    ensures Blue(BlueColor) == 255 && Red(BlueColor) == 0 && Green(BlueColor) == 0
    ensures Red(Black) == 0 && Green(Black) == 0 && Blue(Black) == 0 && Alpha(Black) == 255
    ensures Red(Orange) == 0xc4 && Green(Orange) == 0x96 && Blue(Orange) == 0x3a
  {
  }

  // ---------------------------------------------------------------------
  // gen_hash: the sdbm-style rolling hash

  /** Hash_t: a uint32_t. */
  type Hash = U32

  /** One step of the recurrence h := v + (h << 6) + (h << 16) - h in uint32_t
      arithmetic: the shifts are multiplications by 2^6 and 2^16 and the
      whole sum wraps modulo 2^32. */
  function Mix(h: Hash, v: U32): Hash
  {
    ToU32(v + h * 0x40 + h * 0x1_0000 - h)
  }

  /** The recurrence folded over the values from first to last. */
  function Fold(vals: seq<U32>, h: Hash): Hash
    decreases |vals|
  {
    if vals == [] then h else Fold(vals[1..], Mix(h, vals[0]))
  }

  /** Folding one more value extends the fold by one step. */
  lemma {:induction false} FoldSnoc(vals: seq<U32>, v: U32, h: Hash)
    ensures Fold(vals + [v], h) == Mix(Fold(vals, h), v)
    decreases |vals|
  {
    if vals == [] {
      assert [v][1..] == [];
    } else {
      assert (vals + [v])[1..] == vals[1..] + [v];
      FoldSnoc(vals[1..], v, Mix(h, vals[0]));
    }
  }

  /** Fold composition: hashing a ++ b from seed s is hashing b from the hash
      of a.  This is what lets the pen-position hash seed the text hash. */
  lemma {:induction false} FoldConcat(a: seq<U32>, b: seq<U32>, s: Hash)
    ensures Fold(a + b, s) == Fold(b, Fold(a, s))
    decreases |a|
  {
    if a == [] {
      assert a + b == b;
    } else {
      assert (a + b)[1..] == a[1..] + b;
      FoldConcat(a[1..], b, Mix(s, a[0]));
    }
  }

  /** Bytes taken as unsigned values (const byte*). */
  function Widen(data: seq<Byte>): (r: seq<U32>)
    ensures |r| == |data|
    ensures forall i :: 0 <= i < |data| ==> r[i] == data[i]
  {
    if data == [] then [] else [data[0]] + Widen(data[1..])
  }

  lemma {:induction false} WidenSnoc(data: seq<Byte>, i: nat)
    requires i < |data|
    ensures Widen(data[..i + 1]) == Widen(data[..i]) + [data[i]]
  {
    var l, r := Widen(data[..i + 1]), Widen(data[..i]) + [data[i]];
    assert |l| == |r|;
    forall k | 0 <= k < |l| ensures l[k] == r[k] {
      if k < i {
        assert data[..i + 1][k] == data[..i][k];
      }
    }
  }

  /** A `char` taken as signed and converted to uint32_t (sign extension). */
  function SignExtend(c: Char8): U32
  {
    if ByteOf(c) < 0x80 then ByteOf(c) else ByteOf(c) + 0xffff_ff00
  }

  /** The byte that stores a character. */
  function ByteOf(c: Char8): Byte { c as int }

  function SignExtendAll(s: String8): (r: seq<U32>)
    ensures |r| == |s|
    ensures forall i :: 0 <= i < |s| ==> r[i] == SignExtend(s[i])
  {
    if s == [] then [] else [SignExtend(s[0])] + SignExtendAll(s[1..])
  }

  /** The bytes of a string. */
  function Bytes(s: String8): (r: seq<Byte>)
    ensures |r| == |s|
    ensures forall i :: 0 <= i < |s| ==> r[i] == ByteOf(s[i])
  {
    if s == [] then [] else [ByteOf(s[0])] + Bytes(s[1..])
  }

  /** The characters c_str() walks before its first NUL. */
  function UpToNul(s: String8): (r: String8)
    ensures |r| <= |s| && r == s[..|r|]
    ensures NUL !in r
    ensures |r| < |s| ==> s[|r|] == NUL
  {
    if s == [] || s[0] == NUL then [] else [s[0]] + UpToNul(s[1..])
  }

  /** gen_hash(const String&, initial) as a fold. */
  function StringHash(s: String8, initial: Hash): Hash
  {
    Fold(SignExtendAll(UpToNul(s)), initial)
  }

  /** gen_hash(const byte*, size, initial) as a fold: absent data (None) or a
      zero size leaves the seed. */
  function BytesHash(data: Option<seq<Byte>>, size: nat, initial: Hash): Hash
    requires data.Some? ==> size <= |data.value|
  {
    if data.None? || size == 0 then initial else Fold(Widen(data.value[..size]), initial)
  }

  /** gen_hash over bytes: the loop of the source, proved to compute the fold. */
  method GenHashBytes(data: Option<seq<Byte>>, size: nat, initial: Hash) returns (hash: Hash)
    requires data.Some? ==> size <= |data.value|
    ensures data.None? || size == 0 ==> hash == initial
    ensures data.Some? ==> hash == Fold(Widen(data.value[..size]), initial)
  {
    if data.None? || size == 0 {
      return initial;
    }
    var bytes := data.value;
    hash := initial;
    for i := 0 to size
      invariant hash == Fold(Widen(bytes[..i]), initial)
    {
      WidenSnoc(bytes, i);
      FoldSnoc(Widen(bytes[..i]), bytes[i], initial);
      hash := Mix(hash, bytes[i]);
    }
  }

  /** The character at `i` of c_str(): the terminator NUL sits at |s|. */
  function CStrAt(s: String8, i: nat): Char8
    requires i <= |s|
  {
    if i < |s| then s[i] else NUL
  }

  /** gen_hash over a string: walks c_str() up to its first NUL. */
  method GenHashString(s: String8, initial: Hash) returns (hash: Hash)
    ensures s == [] ==> hash == initial
    ensures hash == Fold(SignExtendAll(UpToNul(s)), initial)
  {
    if |s| == 0 {
      return initial;
    }
    hash := initial;
    var i := 0;
    while CStrAt(s, i) != NUL
      invariant i <= |UpToNul(s)|
      invariant hash == Fold(SignExtendAll(UpToNul(s)[..i]), initial)
      decreases |s| - i
    {
      ghost var pre := UpToNul(s);
      assert pre[i] == s[i];
      assert pre[..i + 1] == pre[..i] + [s[i]];
      assert SignExtendAll(pre[..i + 1]) == SignExtendAll(pre[..i]) + [SignExtend(s[i])];
      FoldSnoc(SignExtendAll(pre[..i]), SignExtend(s[i]), initial);
      hash := Mix(hash, SignExtend(s[i]));
      i := i + 1;
    }
    assert forall j :: 0 <= j < |UpToNul(s)| ==> UpToNul(s)[j] == s[j];
    assert UpToNul(s)[..i] == UpToNul(s);
  }

  /** Everything after the first NUL is invisible to the string hash, so two
      different strings can share a cache key. */
  lemma {:induction false} StringHashStopsAtNul(s: String8, t: String8, initial: Hash)
    requires NUL !in s
    ensures UpToNul(s + [NUL] + t) == s
    ensures StringHash(s + [NUL] + t, initial) == StringHash(s, initial)
  {
    UpToNulPrefix(s, t);
    UpToNulNoNul(s);
  }

  lemma {:induction false} UpToNulPrefix(s: String8, t: String8)
    requires NUL !in s
    ensures UpToNul(s + [NUL] + t) == s
    decreases |s|
  {
    if s == [] {
      assert (s + [NUL] + t)[0] == NUL;
    } else {
      assert (s + [NUL] + t)[1..] == s[1..] + [NUL] + t;
      UpToNulPrefix(s[1..], t);
    }
  }

  lemma {:induction false} UpToNulNoNul(s: String8)
    requires NUL !in s
    ensures UpToNul(s) == s
    decreases |s|
  {
    if s != [] {
      UpToNulNoNul(s[1..]);
    }
  }

  /** For 7-bit text without NUL the string overload agrees with the byte
      overload on the same bytes. */
  lemma {:induction false} AsciiHashesAgree(s: String8, initial: Hash)
    requires forall i :: 0 <= i < |s| ==> s[i] != NUL && ByteOf(s[i]) < 0x80
    ensures StringHash(s, initial) == BytesHash(Some(Bytes(s)), |s|, initial)
  {
    var bytes := Bytes(s);
    assert NUL !in s by {
      forall i | 0 <= i < |s| ensures s[i] != NUL { }
    }
    UpToNulNoNul(s);
    assert bytes[..|s|] == bytes;
    assert SignExtendAll(s) == Widen(bytes) by {
      forall i | 0 <= i < |s| ensures SignExtendAll(s)[i] == Widen(bytes)[i] {
      }
    }
  }

  // ---------------------------------------------------------------------
  // The pen position as it is hashed: the bytes of int2 in memory

  /** The four little-endian bytes of an int32_t (two's complement). */
  function Int32Bytes(v: int): seq<Byte>
  {
    var u0 := ToU32(v);
    var u1 := u0 / 0x100;
    var u2 := u1 / 0x100;
    [u0 % 0x100, u1 % 0x100, u2 % 0x100, u2 / 0x100]
  }

  /** The 8 bytes of an int2: x then y. */
  function PositionBytes(p: Vec2): (r: seq<Byte>)
    ensures |r| == 8
  {
    Int32Bytes(p.x) + Int32Bytes(p.y)
  }

  /** Reads back an int32_t from its four little-endian bytes. */
  function Int32Of(b: seq<Byte>): int
    requires |b| == 4
  {
    var u := (b[0] as int) + 0x100 * (b[1] as int) + 0x1_0000 * (b[2] as int) + 0x100_0000 * (b[3] as int);
    if u < 0x8000_0000 then u else u - 0x1_0000_0000
  }

  predicate InInt32(v: int) { -0x8000_0000 <= v < 0x8000_0000 }

  lemma {:induction false} Int32RoundTrip(v: int)
    requires InInt32(v)
    ensures Int32Of(Int32Bytes(v)) == v
  {
    var u0 := ToU32(v);
    var u1 := u0 / 0x100;
    var u2 := u1 / 0x100;
    var b := Int32Bytes(v);
    assert b[0] == u0 % 0x100 && b[1] == u1 % 0x100;
    assert b[2] == u2 % 0x100 && b[3] == u2 / 0x100;
    assert u0 == u0 % 0x100 + 0x100 * u1;
    assert u1 == u1 % 0x100 + 0x100 * u2;
    assert u2 == u2 % 0x100 + 0x100 * (u2 / 0x100);
    assert u0 == (b[0] as int) + 0x100 * (b[1] as int) + 0x1_0000 * (b[2] as int) + 0x100_0000 * (b[3] as int);
    assert v >= 0 ==> u0 == v;
    assert v < 0 ==> u0 == v + 0x1_0000_0000;
  }

  /** Distinct int32 pen positions are hashed from distinct byte strings. */
  lemma {:induction false} PositionBytesInjective(p: Vec2, q: Vec2)
    requires InInt32(p.x) && InInt32(p.y) && InInt32(q.x) && InInt32(q.y)
    requires PositionBytes(p) == PositionBytes(q)
    ensures p == q
  {
    assert PositionBytes(p)[..4] == Int32Bytes(p.x) && PositionBytes(p)[4..] == Int32Bytes(p.y);
    assert PositionBytes(q)[..4] == Int32Bytes(q.x) && PositionBytes(q)[4..] == Int32Bytes(q.y);
    Int32RoundTrip(p.x);
    Int32RoundTrip(p.y);
    Int32RoundTrip(q.x);
    Int32RoundTrip(q.y);
  }

  /** The cache key: the text hashed with the pen-position hash as its seed. */
  function CacheKey(pen: Vec2, msg: String8): Hash
  {
    StringHash(msg, BytesHash(Some(PositionBytes(pen)), 8, 0))
  }

  /** The key is one fold over the position bytes followed by the text. */
  lemma {:induction false} CacheKeyIsOneFold(pen: Vec2, msg: String8)
    ensures CacheKey(pen, msg) == Fold(Widen(PositionBytes(pen)) + SignExtendAll(UpToNul(msg)), 0)
  {
    assert PositionBytes(pen)[..8] == PositionBytes(pen);
    FoldConcat(Widen(PositionBytes(pen)), SignExtendAll(UpToNul(msg)), 0);
  }

  /** gen_hash of the pen position and the string, as the cache computes it. */
  method ComputeCacheKey(pen: Vec2, msg: String8) returns (key: Hash)
    ensures key == CacheKey(pen, msg)
  {
    var seed := GenHashBytes(Some(PositionBytes(pen)), 8, 0);
    key := GenHashString(msg, seed);
  }

  // ---------------------------------------------------------------------
  // Glyph

  /** A texture coordinate, kept in atlas pixels (divide by the atlas size
      for the normalised value). */
  datatype TexCoord = TexCoord(u: int, v: int)

  datatype Size2 = Size2(width: nat, height: nat)

  /** A rasterised character and its layout metrics; `owner` is the atlas
      that holds its bitmap, or null. */
  datatype Glyph = Glyph(code: Char8, botLeft: TexCoord, topRight: TexCoord,
                         size: Size2, off: Vec2, advance: nat, owner: object?)

  /** Glyph::null */
  const NullGlyph: Glyph := Glyph(NUL, TexCoord(0, 0), TexCoord(0, 0), Size2(0, 0), Zero, 0, null)

  /** Glyph::operator==: compares only code, owner and width. */
  predicate GlyphEq(a: Glyph, b: Glyph)
  {
    a.code == b.code && a.owner == b.owner && a.size.width == b.size.width
  }

  /** Glyph::operator!=: true only when all three fields differ. */
  predicate GlyphNe(a: Glyph, b: Glyph)
  {
    !(a.code == b.code || a.owner == b.owner || a.size.width == b.size.width)
  }

  /** `g == Glyph::null`, the test the layout loops use to skip a glyph. */
  predicate IsNullGlyph(g: Glyph)
  {
    GlyphEq(g, NullGlyph)
  }

  lemma {:induction false} GlyphEqIsEquivalence(a: Glyph, b: Glyph, c: Glyph)
    ensures GlyphEq(a, a)
    ensures GlyphEq(a, b) ==> GlyphEq(b, a)
    ensures GlyphEq(a, b) && GlyphEq(b, c) ==> GlyphEq(a, c)
    ensures GlyphNe(a, b) ==> !GlyphEq(a, b)
  {
  }

  /** operator!= is not the negation of operator==: two glyphs that share a
      code but differ in width are neither equal nor unequal. */
  lemma {:induction false} GlyphNeIsNotComplement()
    ensures exists a: Glyph, b: Glyph :: !GlyphEq(a, b) && !GlyphNe(a, b)
  {
    var a := NullGlyph;
    var b := NullGlyph.(size := Size2(1, 0));
    assert !GlyphEq(a, b) && !GlyphNe(a, b);
  }

  /** A glyph whose code is not NUL is never taken for Glyph::null. */
  lemma {:induction false} NonNulCodeIsNotNull(g: Glyph)
    requires g.code != NUL
    ensures !IsNullGlyph(g)
  {
  }
}
