/** Decoding of the second argument of `open` into the engine's open-mode
    bitmask (luaejdb.c, db_open). The mode is the value of the C `int` that
    db_open hands to the engine. */
module OpenMode {
  import opened LuaHost

  /* The open-mode flags of the engine. Their numeric values live in the
     engine's header, which is not part of this model: each flag is taken to
     be its own bit, in the order the binding registers them. */
  const JBOREADER: int := 0x01
  const JBOWRITER: int := 0x02
  const JBOCREAT: int := 0x04
  const JBOTRUNC: int := 0x08
  const JBONOLCK: int := 0x10
  const JBOLCKNB: int := 0x20
  const JBOTSYNC: int := 0x40

  /** The mode used when the argument is neither a number nor a string:
      writer, create and sync (the three bits are distinct, so their bitwise
      OR is their sum). */
  const DEFAULT_OPEN_MODE: int := JBOWRITER + JBOCREAT + JBOTSYNC

  /** Whether bit `k` is set in the 32-bit pattern of the C `int` `mode`. */
  predicate HasBit(mode: int, k: nat)
    requires k < 32
  {
    (mode % 0x1_0000_0000) / Pow2(k) % 2 == 1
  }

  function Pow2(k: nat): (p: nat)
    ensures p >= 1
  {
    if k == 0 then 1 else 2 * Pow2(k - 1)
  }

  /** The bit positions of the flags. */
  const READER_BIT: nat := 0
  const WRITER_BIT: nat := 1
  const CREAT_BIT: nat := 2
  const TRUNC_BIT: nat := 3
  const NOLCK_BIT: nat := 4
  const LCKNB_BIT: nat := 5
  const TSYNC_BIT: nat := 6

  /** Each flag constant is the bit at its position. */
  lemma FlagBits()
    ensures JBOREADER == Pow2(READER_BIT) && JBOWRITER == Pow2(WRITER_BIT)
    ensures JBOCREAT == Pow2(CREAT_BIT) && JBOTRUNC == Pow2(TRUNC_BIT)
    ensures JBONOLCK == Pow2(NOLCK_BIT) && JBOLCKNB == Pow2(LCKNB_BIT)
    ensures JBOTSYNC == Pow2(TSYNC_BIT)
  {
    assert Pow2(2) == 4;
    assert Pow2(4) == 16;
    assert Pow2(6) == 64;
  }

  /** C's `mode |= flag` for a mode that is a small set of flag bits. */
  function OrFlag(mode: nat, flag: nat): (r: nat)
    requires flag > 0
    ensures r == mode || r == mode + flag
  {
    if mode / flag % 2 == 1 then mode else mode + flag
  }

  /** Bit `k` of a natural number, by repeated halving. */
  predicate Bit(m: nat, k: nat) {
    if k == 0 then m % 2 == 1 else Bit(m / 2, k - 1)
  }

  /** The first six powers of two. */
  lemma Pow2Small(k: nat)
    requires k < 6
    ensures Pow2(k) == 1 || Pow2(k) == 2 || Pow2(k) == 4 || Pow2(k) == 8 || Pow2(k) == 16 || Pow2(k) == 32
  {
    if k > 0 {
      Pow2Small(k - 1);
    }
  }

  /** Dividing by 2p is halving and then dividing by p, for the divisors
      the flag positions need. */
  lemma Halve(m: nat, p: nat)
    requires p == 1 || p == 2 || p == 4 || p == 8 || p == 16 || p == 32
    ensures m / (2 * p) == m / 2 / p
  {
  }

  /** At the seven flag positions, the halving definition of a bit is the
      base-2 digit. */
  lemma {:induction false} BitIsDigit(m: nat, k: nat)
    requires k < 7
    ensures Bit(m, k) <==> m / Pow2(k) % 2 == 1
  {
    if k > 0 {
      BitIsDigit(m / 2, k - 1);
      Pow2Small(k - 1);
      Halve(m, Pow2(k - 1));
    }
  }

  /** Adding the power 2^j to a number whose bit j is clear sets that bit
      and keeps every other bit. */
  lemma {:induction false} AddBit(m: nat, j: nat, k: nat)
    requires !Bit(m, j)
    ensures Bit(m + Pow2(j), k) <==> Bit(m, k) || k == j
  {
    if j == 0 {
      assert (m + 1) / 2 == m / 2;
    } else {
      assert (m + Pow2(j)) / 2 == m / 2 + Pow2(j - 1);
      if k > 0 {
        AddBit(m / 2, j - 1, k - 1);
      }
    }
  }

  /** `mode |= 2^j` sets bit j and keeps every other bit. */
  lemma OrBit(m: nat, j: nat, k: nat)
    requires j < 7
    ensures Bit(OrFlag(m, Pow2(j)), k) <==> Bit(m, k) || k == j
  {
    BitIsDigit(m, j);
    if !Bit(m, j) {
      AddBit(m, j, k);
    }
  }

  /** Below 2^32, `HasBit` reads the halving bit. */
  lemma HasBitIsBit(m: nat, k: nat)
    requires m < 0x1_0000_0000 && k < 7
    ensures HasBit(m, k) <==> Bit(m, k)
  {
    assert m % 0x1_0000_0000 == m;
    BitIsDigit(m, k);
  }

  /** `mode |= 2^j` keeps every flag bit of the mode and sets bit j, as long
      as the result stays within 32 bits. */
  lemma OrFlagKeepsBits(m: nat, j: nat)
    requires j < 7
    ensures m + Pow2(j) < 0x1_0000_0000 ==>
      && (forall k: nat :: k < 7 && HasBit(m, k) ==> HasBit(OrFlag(m, Pow2(j)), k))
      && HasBit(OrFlag(m, Pow2(j)), j)
  {
    var r := OrFlag(m, Pow2(j));
    if m + Pow2(j) < 0x1_0000_0000 {
      forall k: nat | k < 7
        ensures HasBit(m, k) ==> HasBit(r, k)
      {
        HasBitIsBit(m, k);
        HasBitIsBit(r, k);
        OrBit(m, j, k);
      }
      HasBitIsBit(r, j);
      OrBit(m, j, j);
    }
  }

  /** The value of a C `int` holding the unsigned 32-bit pattern `u`. */
  function SignedValue(u: int): (n: int)
    requires 0 <= u < 0x1_0000_0000
    ensures -0x8000_0000 <= n < 0x8000_0000
    ensures n % 0x1_0000_0000 == u
  {
    if u < 0x8000_0000 then u else u - 0x1_0000_0000
  }

  /** Storing an integer into a C `int`: two's-complement wrap-around. An
      integer that fits is kept as it is; any other keeps its low 32 bits. */
  function ToCInt(n: int): (m: int)
    ensures -0x8000_0000 <= m < 0x8000_0000
    ensures -0x8000_0000 <= n < 0x8000_0000 ==> m == n
    ensures m % 0x1_0000_0000 == n % 0x1_0000_0000
  {
    SignedValue(n % 0x1_0000_0000)
  }

  /** The sum of the string-settable flags that are switched on. Since the
      flags are distinct bits, this is also their bitwise OR. */
  function FlagSum(reader: bool, writer: bool, creat: bool, trunc: bool, tsync: bool): nat {
    (if reader then JBOREADER else 0) + (if writer then JBOWRITER else 0)
    + (if creat then JBOCREAT else 0) + (if trunc then JBOTRUNC else 0)
    + (if tsync then JBOTSYNC else 0)
  }

  /** A flag sum has exactly the bits of the flags switched on. */
  lemma FlagSumBits(reader: bool, writer: bool, creat: bool, trunc: bool, tsync: bool)
    ensures var m := FlagSum(reader, writer, creat, trunc, tsync);
      && m < 0x80
      && (HasBit(m, READER_BIT) <==> reader)
      && (HasBit(m, WRITER_BIT) <==> writer)
      && (HasBit(m, CREAT_BIT) <==> creat)
      && (HasBit(m, TRUNC_BIT) <==> trunc)
      && (HasBit(m, TSYNC_BIT) <==> tsync)
      && !HasBit(m, NOLCK_BIT) && !HasBit(m, LCKNB_BIT)
      && (m == 0 <==> !reader && !writer && !creat && !trunc && !tsync)
  {
    var m := FlagSum(reader, writer, creat, trunc, tsync);
    FlagBits();
    assert Pow2(5) == 32;
    assert m % 0x1_0000_0000 == m;
    assert m / 1 % 2 == 1 <==> reader;
    assert m / 2 % 2 == 1 <==> writer;
    assert m / 4 % 2 == 1 <==> creat;
    assert m / 8 % 2 == 1 <==> trunc;
    assert m / 64 % 2 == 1 <==> tsync;
    assert m / 16 % 2 == 0 && m / 32 % 2 == 0;
  }

  /** The mode a string made of the characters `cs` selects: reader as soon as
      there is any character, and one more flag for each of w, c, t, s. */
  function ModeOfChars(cs: set<char>): (m: nat)
    ensures m < 0x80
    ensures HasBit(m, READER_BIT) <==> cs != {}
    ensures HasBit(m, WRITER_BIT) <==> 'w' in cs
    ensures HasBit(m, CREAT_BIT) <==> 'c' in cs
    ensures HasBit(m, TRUNC_BIT) <==> 't' in cs
    ensures HasBit(m, TSYNC_BIT) <==> 's' in cs
    ensures !HasBit(m, NOLCK_BIT) && !HasBit(m, LCKNB_BIT)
    ensures m == 0 <==> cs == {}
  {
    FlagSumBits(cs != {}, 'w' in cs, 'c' in cs, 't' in cs, 's' in cs);
    FlagSum(cs != {}, 'w' in cs, 'c' in cs, 't' in cs, 's' in cs)
  }

  /** The switch of db_open's scanning loop: ORs in the flag `c` selects,
      if any. */
  function SwitchFlag(m: nat, c: char): (r: nat)
    ensures r >= m
    ensures m % 2 == 1 ==> r % 2 == 1
    ensures c != 'w' && c != 'c' && c != 't' && c != 's' ==> r == m
    ensures c == 'w' ==> r == m || r == m + JBOWRITER
    ensures c == 'c' ==> r == m || r == m + JBOCREAT
    ensures c == 't' ==> r == m || r == m + JBOTRUNC
    ensures c == 's' ==> r == m || r == m + JBOTSYNC
    ensures m < 0x80 ==> forall k: nat :: k < 7 && HasBit(m, k) ==> HasBit(r, k)
    ensures m < 0x80 && c == 'w' ==> HasBit(r, WRITER_BIT)
    ensures m < 0x80 && c == 'c' ==> HasBit(r, CREAT_BIT)
    ensures m < 0x80 && c == 't' ==> HasBit(r, TRUNC_BIT)
    ensures m < 0x80 && c == 's' ==> HasBit(r, TSYNC_BIT)
  {
    FlagBits();
    match c
    case 'w' => OrFlagKeepsBits(m, WRITER_BIT); OrFlag(m, JBOWRITER)
    case 'c' => OrFlagKeepsBits(m, CREAT_BIT); OrFlag(m, JBOCREAT)
    case 't' => OrFlagKeepsBits(m, TRUNC_BIT); OrFlag(m, JBOTRUNC)
    case 's' => OrFlagKeepsBits(m, TSYNC_BIT); OrFlag(m, JBOTSYNC)
    case _ => m
  }

  /** One turn of db_open's scanning loop on character `c`: reader is ORed
      in, then the flag the switch selects for `c`. The mode never decreases,
      reader is always set afterwards, and no flag bit is ever cleared. */
  function ScanChar(mode: nat, c: char): (r: nat)
    ensures r >= mode
    ensures r % 2 == 1
    ensures mode % 2 == 1 && c != 'w' && c != 'c' && c != 't' && c != 's' ==> r == mode
    ensures mode < 0x80 ==> forall k: nat :: k < 7 && HasBit(mode, k) ==> HasBit(r, k)
  {
    FlagBits();
    OrFlagKeepsBits(mode, READER_BIT);
    SwitchFlag(OrFlag(mode, JBOREADER), c)
  }

  /** Scanning one more character yields the mode of the enlarged set. */
  lemma ScanCharAdds(cs: set<char>, c: char)
    ensures ScanChar(ModeOfChars(cs), c) == ModeOfChars(cs + {c})
  {
    var r, w, cr, t, sy := cs != {}, 'w' in cs, 'c' in cs, 't' in cs, 's' in cs;
    OrReader(r, w, cr, t, sy);
    match c
    case 'w' => OrWriter(true, w, cr, t, sy);
    case 'c' => OrCreat(true, w, cr, t, sy);
    case 't' => OrTrunc(true, w, cr, t, sy);
    case 's' => OrTsync(true, w, cr, t, sy);
    case _ =>
  }

  lemma OrReader(r: bool, w: bool, c: bool, t: bool, s: bool)
    ensures OrFlag(FlagSum(r, w, c, t, s), JBOREADER) == FlagSum(true, w, c, t, s)
  {
  }

  lemma OrWriter(r: bool, w: bool, c: bool, t: bool, s: bool)
    ensures OrFlag(FlagSum(r, w, c, t, s), JBOWRITER) == FlagSum(r, true, c, t, s)
  {
  }

  lemma OrCreat(r: bool, w: bool, c: bool, t: bool, s: bool)
    ensures OrFlag(FlagSum(r, w, c, t, s), JBOCREAT) == FlagSum(r, w, true, t, s)
  {
  }

  lemma OrTrunc(r: bool, w: bool, c: bool, t: bool, s: bool)
    ensures OrFlag(FlagSum(r, w, c, t, s), JBOTRUNC) == FlagSum(r, w, c, true, s)
  {
  }

  lemma OrTsync(r: bool, w: bool, c: bool, t: bool, s: bool)
    ensures OrFlag(FlagSum(r, w, c, t, s), JBOTSYNC) == FlagSum(r, w, c, t, true)
  {
  }

  /** Two character sets select the same mode exactly when they agree on being
      empty and on each of w, c, t, s: every other character is ignored. */
  lemma ModeOfCharsEqual(a: set<char>, b: set<char>)
    ensures ModeOfChars(a) == ModeOfChars(b) <==>
      && (a == {} <==> b == {})
      && ('w' in a <==> 'w' in b)
      && ('c' in a <==> 'c' in b)
      && ('t' in a <==> 't' in b)
      && ('s' in a <==> 's' in b)
  {
  }

  /** The string form of the mode, as db_open scans it: the mode starts from
      0 and each character up to the terminating NUL ORs in reader and its own
      flag. */
  method ParseModeString(om: seq<char>) returns (mode: int)
    ensures mode == ModeOfChars(CharsOf(CString(om)))
    ensures mode == 0 <==> CString(om) == []
    ensures !HasBit(mode, NOLCK_BIT) && !HasBit(mode, LCKNB_BIT)
  {
    mode := 0;
    var i := 0;
    while i < |om| && om[i] != '\0'
      invariant 0 <= i <= |om|
      invariant '\0' !in om[..i]
      invariant mode == ModeOfChars(CharsOf(om[..i]))
    {
      ScanCharAdds(CharsOf(om[..i]), om[i]);
      assert om[..i + 1] == om[..i] + [om[i]];
      CharsOfConcat(om[..i], [om[i]]);
      mode := ScanChar(mode, om[i]);
      i := i + 1;
    }
    CStringConcat(om[..i], om[i..]);
    assert om[..i] + om[i..] == om;
    assert CString(om[i..]) == [];
    assert CString(om) == om[..i];
    if om[..i] != [] {
      assert om[0] in CharsOf(om[..i]);
    }
  }

  /** The mode db_open passes to the engine, from its second argument. */
  method DecodeOpenMode(arg: Arg) returns (mode: int)
    ensures !arg.Num? && !arg.Str? ==> mode == DEFAULT_OPEN_MODE
    ensures arg.Num? && -0x8000_0000 <= arg.n < 0x8000_0000 ==> mode == arg.n
    ensures arg.Num? ==> mode == ToCInt(arg.n)
    ensures arg.Str? ==> mode == ModeOfChars(CharsOf(CString(arg.s)))
    ensures arg.Str? && arg.s != [] && arg.s[0] != '\0' ==> HasBit(mode, READER_BIT)
    ensures arg.Str? ==> !HasBit(mode, NOLCK_BIT) && !HasBit(mode, LCKNB_BIT)
  {
    mode := DEFAULT_OPEN_MODE;
    if arg.Num? {
      mode := ToCInt(arg.n);
    } else if arg.Str? {
      mode := ParseModeString(arg.s);
      if arg.s != [] && arg.s[0] != '\0' {
        assert arg.s[0] in CharsOf(CString(arg.s));
      }
    }
  }

  /** Mode strings compose: the mode of a NUL-free string followed by more text
      has exactly the flags of either part. */
  lemma ModeStringConcat(a: seq<char>, b: seq<char>)
    requires '\0' !in a
    ensures ModeOfChars(CharsOf(CString(a + b)))
         == ModeOfChars(CharsOf(a) + CharsOf(CString(b)))
  {
    CStringConcat(a, b);
    CharsOfConcat(a, CString(b));
  }

  /** Reordering or repeating the characters of a NUL-free mode string does not
      change the mode. */
  lemma ModeStringOrderFree(a: seq<char>, b: seq<char>)
    requires '\0' !in a && '\0' !in b
    requires CharsOf(a) == CharsOf(b)
    ensures ModeOfChars(CharsOf(CString(a))) == ModeOfChars(CharsOf(CString(b)))
  {
    CStringOfNulFree(a);
    CStringOfNulFree(b);
  }
}
