/**
 * What flash-fuse-imx.py promises about `EthernetMac`: how `is_fused` reads the two
 * words, the checks `blow` makes before writing, the write order, the round trip of
 * the printed address, and that the words written agree with the C++ tools' layout.
 */
module ImxPyMac {
  import opened Wrappers
  import opened PyInt
  import opened PyText
  import opened HexText
  import opened ImxPy
  import opened MacCodec
  import opened Bits
  import opened Nvmem

  /** The number `is_fused` reads from two 32-bit words: the low half of MAC1 above MAC0. */
  function MacNumber(m0: nat, m1: nat): nat
  {
    m1 % 0x10000 * 0x1_0000_0000 + m0
  }

  /** Text that is nothing but hex digits is read by `int(s, 16)` as its value. */
  lemma ParseBare(s: string)
    requires s != [] && AllHex(s)
    ensures ParseInt16(s) == Some(HexVal(s))
  {
    HexStrips(s);
    NoPrefix(s);
    ParseBody(s, s);
  }

  /** Hex digits are not whitespace. */
  lemma HexStrips(s: string)
    requires s != [] && AllHex(s)
    ensures Strip(s, Whitespace) == s
  {
    assert IsHexDigit(s[0]) && IsHexDigit(s[|s| - 1]);
    StripNothing(s, Whitespace);
  }

  /** Hex digits never start with `0x`, since `x` is not a digit. */
  lemma NoPrefix(s: string)
    requires AllHex(s)
    ensures !(|s| >= 2 && s[0] == '0' && (s[1] == 'x' || s[1] == 'X'))
  {
    assert |s| >= 2 ==> IsHexDigit(s[1]);
  }

  /** A 32-bit register prints as exactly eight lowercase digits, which read back as its value. */
  lemma Hex08Word(v: nat)
    requires v < 0x1_0000_0000
    ensures |Hex08(v)| == 8 && AllHex(Hex08(v)) && LowerHex(Hex08(v)) && HexVal(Hex08(v)) == v
  {
    assert Pow16(8) == 0x1_0000_0000;
    PadDigits(v, 8);
    HexValPad(Digits(v), 8);
    HexValDigits(v);
  }

  /** The last four of eight digits hold the low sixteen bits of the value. */
  lemma LowHalf(s: string)
    requires |s| == 8 && AllHex(s)
    ensures AllHex(s[4..]) && HexVal(s[4..]) == HexVal(s) % 0x10000
  {
    assert s[..4] + s[4..] == s;
    HexValConcat(s[..4], s[4..]);
    assert Pow16(4) == 0x10000;
    ModLow(HexVal(s[..4]), HexVal(s[4..]));
  }

  lemma ModLow(x: nat, y: nat)
    requires y < 0x10000
    ensures (x * 0x10000 + y) % 0x10000 == y
  {}

  lemma ConcatTwo(a: string, b: string)
    ensures Concat([a, b]) == a + b
  {
    assert Concat([b]) == b + Concat([]) by {
      assert [b][1..] == [];
    }
    assert [a, b][1..] == [b];
  }

  lemma ConcatFour(a: string, b: string, c: string, d: string)
    ensures Concat([a, b, c, d]) == a + b + c + d
  {
    ConcatTwo(c, d);
    assert Concat([b, c, d]) == b + Concat([c, d]) by {
      assert [b, c, d][1..] == [c, d];
    }
    assert [a, b, c, d][1..] == [b, c, d];
  }

  lemma ConcatSix(a: string, b: string, c: string, d: string, e: string, f: string)
    ensures Concat([a, b, c, d, e, f]) == a + b + c + d + e + f
  {
    ConcatFour(c, d, e, f);
    assert Concat([b, c, d, e, f]) == b + Concat([c, d, e, f]) by {
      assert [b, c, d, e, f][1..] == [c, d, e, f];
    }
    assert [a, b, c, d, e, f][1..] == [b, c, d, e, f];
  }

  lemma Assoc(x: string, y: string, z: string)
    ensures (x + y) + z == x + (y + z)
  {}

  /** The six fields, run together again, are the low half of `b` and then `a`. */
  lemma SixPieces(a: string, b: string)
    requires |a| == 8 && |b| == 8
    ensures b[4..6] + b[6..8] + a[0..2] + a[2..4] + a[4..6] + a[6..8] == b[4..] + a
  {
    var x, p, q, r, t := b[4..], a[0..2], a[2..4], a[4..6], a[6..8];
    assert b[4..6] + b[6..8] == x;
    assert p + q + r + t == a;
    Assoc(x, p, q);
    Assoc(x, p + q, r);
    Assoc(x, p + q + r, t);
  }

  /** No field cut from colon-free texts holds a colon. */
  lemma FieldsAvoid(a: string, b: string)
    requires |a| == 8 && |b| == 8 && ':' !in a && ':' !in b
    ensures forall i :: 0 <= i < 6 ==> ':' !in [b[4..6], b[6..8], a[0..2], a[2..4], a[4..6], a[6..8]][i]
  {
    SliceAvoids(b, ':', 4, 6);
    SliceAvoids(b, ':', 6, 8);
    SliceAvoids(a, ':', 0, 2);
    SliceAvoids(a, ':', 2, 4);
    SliceAvoids(a, ':', 4, 6);
    SliceAvoids(a, ':', 6, 8);
  }

  /** A piece of a text without `c` holds no `c` either. */
  lemma SliceAvoids(s: string, c: char, i: nat, j: nat)
    requires i <= j <= |s| && c !in s
    ensures c !in s[i..j]
  {
    assert forall k :: 0 <= k < j - i ==> s[i..j][k] == s[i + k];
  }

  /** The six fields `get` cuts from two eight-digit texts, joined and with the colons removed again. */
  lemma FieldsDigits(a: string, b: string)
    requires |a| == 8 && |b| == 8 && ':' !in a && ':' !in b
    ensures Remove(Join([b[4..6], b[6..8], a[0..2], a[2..4], a[4..6], a[6..8]], ':'), ':') == b[4..] + a
  {
    FieldsAvoid(a, b);
    RemoveJoin([b[4..6], b[6..8], a[0..2], a[2..4], a[4..6], a[6..8]], ':');
    ConcatSix(b[4..6], b[6..8], a[0..2], a[2..4], a[4..6], a[6..8]);
    SixPieces(a, b);
  }

  /** `get`'s text with the colons removed: the low four digits of MAC1, then the eight of MAC0. */
  lemma MacGetDigits(m0: nat, m1: nat)
    requires m0 < 0x1_0000_0000 && m1 < 0x1_0000_0000
    ensures Remove(Join(MacFields(m0, m1), ':'), ':') == Hex08(m1)[4..] + Hex08(m0)
  {
    Hex08Word(m0);
    Hex08Word(m1);
    HexChars(Hex08(m0));
    HexChars(Hex08(m1));
    FieldsDigits(Hex08(m0), Hex08(m1));
  }

  /** Four digits holding the low half of `m1`, then eight holding `m0`, read as the one above the other. */
  lemma DigitsAbove(t: string, a: string, m0: nat, m1: nat)
    requires |t| == 4 && |a| == 8 && AllHex(t) && AllHex(a)
    requires HexVal(t) == m1 % 0x10000 && HexVal(a) == m0
    ensures ParseInt16(t + a) == Some(MacNumber(m0, m1))
  {
    ConcatValue(t, a, m0, m1);
    ParseAs(t + a, Some(MacNumber(m0, m1)));
  }

  lemma ConcatValue(t: string, a: string, m0: nat, m1: nat)
    requires |t| == 4 && |a| == 8 && AllHex(t) && AllHex(a)
    requires HexVal(t) == m1 % 0x10000 && HexVal(a) == m0
    ensures t + a != [] && AllHex(t + a) && HexVal(t + a) == MacNumber(m0, m1)
  {
    HexValConcat(t, a);
    assert Pow16(|a|) == 0x1_0000_0000;
  }

  lemma ParseAs(s: string, r: Option<nat>)
    requires s != [] && AllHex(s) && r.Some? && HexVal(s) == r.value
    ensures ParseInt16(s) == r
  {
    ParseBare(s);
  }

  /** The twelve digits `is_fused` parses: the low half of MAC1 above MAC0. */
  lemma PrintedValue(m0: nat, m1: nat)
    requires m0 < 0x1_0000_0000 && m1 < 0x1_0000_0000
    ensures ParseInt16(Hex08(m1)[4..] + Hex08(m0)) == Some(MacNumber(m0, m1))
  {
    PrintedFields(m0, m1);
    DigitsAbove(Hex08(m1)[4..], Hex08(m0), m0, m1);
  }

  /** The two pieces `get` prints: the low four digits of MAC1 and the eight of MAC0. */
  lemma PrintedFields(m0: nat, m1: nat)
    requires m0 < 0x1_0000_0000 && m1 < 0x1_0000_0000
    ensures |Hex08(m1)[4..]| == 4 && AllHex(Hex08(m1)[4..]) && HexVal(Hex08(m1)[4..]) == m1 % 0x10000
    ensures |Hex08(m0)| == 8 && AllHex(Hex08(m0)) && HexVal(Hex08(m0)) == m0
  {
    Hex08Word(m0);
    Hex08Word(m1);
    LowHalf(Hex08(m1));
  }

  /** The number `is_fused` reads from the text `get` prints for two 32-bit words: the low half of MAC1 above MAC0. */
  lemma MacDigitsValue(m0: nat, m1: nat)
    requires m0 < 0x1_0000_0000 && m1 < 0x1_0000_0000
    ensures ParseInt16(Remove(Join(MacFields(m0, m1), ':'), ':')) == Some(MacNumber(m0, m1))
  {
    MacGetDigits(m0, m1);
    PrintedValue(m0, m1);
  }

  /**
   * `EthernetMac.is_fused` reads the printed address as one 48-bit number: the low half
   * of MAC1 above MAC0. The fuse is fused exactly when that number is not zero; the lock
   * word plays no part.
   */
  lemma MacFusedValue(regs: Regs)
    requires Mac0 in regs && Mac1 in regs
    requires regs[Mac0] < 0x1_0000_0000 && regs[Mac1] < 0x1_0000_0000
    ensures MacGetSpec(regs) == Ok(Join(MacFields(regs[Mac0], regs[Mac1]), ':'))
    ensures IsFusedSpec(regs, EthernetMac) == Ok(regs[Mac0] != 0 || regs[Mac1] % 0x10000 != 0)
  {
    MacGetOf(regs);
    MacDigitsValue(regs[Mac0], regs[Mac1]);
    FusedFromValue(regs, Join(MacFields(regs[Mac0], regs[Mac1]), ':'), Some(MacNumber(regs[Mac0], regs[Mac1])));
    WideZero(regs[Mac0], regs[Mac1], IsFusedSpec(regs, EthernetMac));
  }

  /** `get` prints the two words when both registers have a file. */
  lemma MacGetOf(regs: Regs)
    requires Mac0 in regs && Mac1 in regs
    ensures MacGetSpec(regs) == Ok(Join(MacFields(regs[Mac0], regs[Mac1]), ':'))
  {}

  /** `is_fused` compares the number read from `get`'s text, colons removed, with zero. */
  lemma FusedFromValue(regs: Regs, s: string, n: Option<nat>)
    requires MacGetSpec(regs) == Ok(s) && n.Some? && ParseInt16(Remove(s, ':')) == n
    ensures IsFusedSpec(regs, EthernetMac) == Ok(n.value != 0)
  {}

  /** The low half of MAC1 above MAC0 is zero exactly when both parts are. */
  lemma WideZero(m0: nat, m1: nat, fused: Result<bool, PyError>)
    requires fused == Ok(MacNumber(m0, m1) != 0)
    ensures fused == Ok(m0 != 0 || m1 % 0x10000 != 0)
  {}

  /** `EthernetMac.blow` writes nothing unless the address has twelve digits and the lock bits are clear. */
  lemma MacChecksFirst(regs: Regs, arg: Option<string>)
    ensures MacBlowSpec(regs, arg).writes != [] ==>
      arg.Some? && |Remove(arg.value, ':')| == 12 && Lock in regs && And(regs[Lock], MacLockMask) == 0
    ensures arg.Some? && |Remove(arg.value, ':')| != 12 ==>
      MacBlowSpec(regs, arg) == Blown(Err(RuntimeError(MacInvalid)), [])
    ensures arg.Some? && |Remove(arg.value, ':')| == 12 && Lock in regs && And(regs[Lock], MacLockMask) != 0 ==>
      MacBlowSpec(regs, arg) == Blown(Err(RuntimeError(MacLocked)), [])
  {}

  /** The writes once the checks pass: none, MAC0 alone, or MAC0, MAC1 and the lock word. */
  lemma MacWritesShape(mac: string)
    ensures |MacWrites(mac).writes| in {0, 1, 3}
    ensures MacWrites(mac).result.Ok? <==> |MacWrites(mac).writes| == 3
    ensures MacWrites(mac).writes != [] ==> MacWrites(mac).writes[0].0 == Mac0
    ensures |MacWrites(mac).writes| == 1 ==> MacWrites(mac).result == Err(ValueError(Mac1Text(mac)))
    ensures |MacWrites(mac).writes| == 3 ==>
      MacWrites(mac).writes[1].0 == Mac1 && MacWrites(mac).writes[2] == (Lock, MacLockMask)
  {
    var v0, v1 := ParseInt16(Mac0Text(mac)), ParseInt16(Mac1Text(mac));
    if v0.None? {
      assert MacWrites(mac) == Blown(Err(ValueError(Mac0Text(mac))), []);
    } else if v1.None? {
      assert MacWrites(mac) == Blown(Err(ValueError(Mac1Text(mac))), [(Mac0, v0.value)]);
    } else {
      assert MacWrites(mac) == Blown(Ok(()), [(Mac0, v0.value), (Mac1, v1.value), (Lock, MacLockMask)]);
    }
  }

  /**
   * The writes of `EthernetMac.blow`: none, MAC0 alone when the MAC1 text is not a
   * number, or MAC0, MAC1 and the lock word, only the last of which succeeds.
   */
  lemma MacBlowShape(regs: Regs, arg: Option<string>)
    ensures |MacBlowSpec(regs, arg).writes| in {0, 1, 3}
    ensures MacBlowSpec(regs, arg).result.Ok? <==> |MacBlowSpec(regs, arg).writes| == 3
    ensures MacBlowSpec(regs, arg).writes != [] ==> MacBlowSpec(regs, arg).writes[0].0 == Mac0
    ensures |MacBlowSpec(regs, arg).writes| == 1 ==>
      MacBlowSpec(regs, arg).result == Err(ValueError(Mac1Text(arg.value)))
    ensures |MacBlowSpec(regs, arg).writes| == 3 ==>
      MacBlowSpec(regs, arg).writes[1].0 == Mac1 && MacBlowSpec(regs, arg).writes[2] == (Lock, MacLockMask)
  {
    if MacBlowSpec(regs, arg).writes != [] {
      MacChecksFirst(regs, arg);
      MacWritesShape(arg.value);
      assert MacBlowSpec(regs, arg) == MacWrites(arg.value);
    }
  }

  /** The lowercase two-digit field `EthernetMac.get` prints for an octet. */
  function Pair(b: Byte): (s: string)
    ensures |s| == 2 && LowerHex(s)
  {
    [LowerDigit(Hi(b)), LowerDigit(Lo(b))]
  }

  /** An octet is sixteen times its high digit plus its low digit. */
  lemma OctetValue(b: Byte)
    ensures Hi(b) * 16 + Lo(b) == b as int
  {}

  /** The field reads back as the octet. */
  lemma PairValue(b: Byte)
    ensures AllHex(Pair(b)) && HexVal(Pair(b)) == b as int
  {
    var s := Pair(b);
    assert s[..1] == [s[0]] && [s[0]][..0] == [];
    OctetValue(b);
  }

  /** The six fields of an address, octet 0 first. */
  function Pairs(o: Octets): (p: seq<string>)
    ensures |p| == 6
  {
    [Pair(o[0]), Pair(o[1]), Pair(o[2]), Pair(o[3]), Pair(o[4]), Pair(o[5])]
  }

  /** The address as `EthernetMac.get` prints it: `aa:bb:cc:dd:ee:ff`, lowercase. */
  function MacText(o: Octets): string
  {
    Join(Pairs(o), ':')
  }

  /** The value of four fields in a row. */
  lemma HexValFour(a: string, b: string, c: string, d: string)
    requires |a| == 2 && |b| == 2 && |c| == 2 && |d| == 2
    requires AllHex(a) && AllHex(b) && AllHex(c) && AllHex(d)
    ensures AllHex(a + b + c + d)
    ensures HexVal(a + b + c + d) == HexVal(a) * 0x100_0000 + HexVal(b) * 0x1_0000 + HexVal(c) * 0x100 + HexVal(d)
  {
    assert Pow16(2) == 0x100;
    HexValConcat(a, b);
    HexValConcat(a + b, c);
    HexValConcat(a + b + c, d);
  }

  /** The value of two fields in a row. */
  lemma HexValTwo(a: string, b: string)
    requires |a| == 2 && |b| == 2 && AllHex(a) && AllHex(b)
    ensures AllHex(a + b) && HexVal(a + b) == HexVal(a) * 0x100 + HexVal(b)
  {
    assert Pow16(2) == 0x100;
    HexValConcat(a, b);
  }

  /** The C++ words of `Layout`, read as numbers. */
  lemma LayoutValues(o: Octets)
    ensures Decode(Layout(o).0) as int
         == o[2] as int * 0x100_0000 + o[3] as int * 0x1_0000 + o[4] as int * 0x100 + o[5] as int
    ensures Decode(Layout(o).1) as int == o[0] as int * 0x100 + o[1] as int
  {
    LayoutWords(o);
    WordOfOctets(o[2], o[3], o[4], o[5]);
    WordOfOctets(0, 0, o[0], o[1]);
  }

  lemma WordOfOctets(a: Byte, b: Byte, c: Byte, d: Byte)
    ensures ((a as Word << 24) | (b as Word << 16) | (c as Word << 8) | d as Word) as int
         == a as int * 0x100_0000 + b as int * 0x1_0000 + c as int * 0x100 + d as int
  {}

  /** The MAC0 and MAC1 words of an address, as the C++ `Layout` has them. */
  function MacWords(o: Octets): (ws: Writes)
    ensures |ws| == 3
  {
    [(Mac0, Decode(Layout(o).0) as int), (Mac1, Decode(Layout(o).1) as int), (Lock, MacLockMask)]
  }

  /** Six two-character fields without a colon, joined by colons, split back into themselves. */
  lemma JoinedSplit(p: seq<string>)
    requires |p| == 6 && forall i :: 0 <= i < 6 ==> |p[i]| == 2 && ':' !in p[i]
    ensures Split(Join(p, ':'), ':') == p
    ensures |Remove(Join(p, ':'), ':')| == 12
  {
    SplitJoin(p, ':');
    RemoveJoin(p, ':');
    ConcatSix(p[0], p[1], p[2], p[3], p[4], p[5]);
    assert p == [p[0], p[1], p[2], p[3], p[4], p[5]];
  }

  /** The texts `EthernetMac.blow` parses for MAC0 and MAC1 from six such fields. */
  lemma JoinedHalves(p: seq<string>)
    requires |p| == 6 && forall i :: 0 <= i < 6 ==> |p[i]| == 2 && ':' !in p[i]
    ensures Mac0Text(Join(p, ':')) == "0x" + (p[2] + p[3] + p[4] + p[5])
    ensures Mac1Text(Join(p, ':')) == "0x" + (p[0] + p[1])
  {
    JoinedSplit(p);
    assert Mac0Text(Join(p, ':')) == "0x" + Concat([p[2], p[3], p[4], p[5]]) by {
      assert Slice(p, 2, 6) == [p[2], p[3], p[4], p[5]];
    }
    assert Mac1Text(Join(p, ':')) == "0x" + Concat([p[0], p[1]]) by {
      assert Slice(p, 0, 2) == [p[0], p[1]];
    }
    ConcatFour(p[2], p[3], p[4], p[5]);
    ConcatTwo(p[0], p[1]);
  }

  /** The printed address splits back into its six fields, twelve digits in all. */
  lemma MacTextSplits(o: Octets)
    ensures Split(MacText(o), ':') == Pairs(o)
    ensures |Remove(MacText(o), ':')| == 12
    ensures Mac0Text(MacText(o)) == "0x" + (Pair(o[2]) + Pair(o[3]) + Pair(o[4]) + Pair(o[5]))
    ensures Mac1Text(MacText(o)) == "0x" + (Pair(o[0]) + Pair(o[1]))
  {
    var p := Pairs(o);
    forall i | 0 <= i < 6
      ensures ':' !in p[i]
    {
      HexChars(p[i]);
    }
    JoinedSplit(p);
    JoinedHalves(p);
  }

  /** Fields 2..5 read as one number are the C++ MAC0 word; fields 0 and 1 are the MAC1 word. */
  lemma MacHalvesValues(o: Octets)
    ensures AllHex(Pair(o[2]) + Pair(o[3]) + Pair(o[4]) + Pair(o[5]))
    ensures HexVal(Pair(o[2]) + Pair(o[3]) + Pair(o[4]) + Pair(o[5])) == Decode(Layout(o).0) as int
    ensures AllHex(Pair(o[0]) + Pair(o[1]))
    ensures HexVal(Pair(o[0]) + Pair(o[1])) == Decode(Layout(o).1) as int
  {
    PairValue(o[0]);
    PairValue(o[1]);
    PairValue(o[2]);
    PairValue(o[3]);
    PairValue(o[4]);
    PairValue(o[5]);
    HexValFour(Pair(o[2]), Pair(o[3]), Pair(o[4]), Pair(o[5]));
    HexValTwo(Pair(o[0]), Pair(o[1]));
    LayoutValues(o);
  }

  /** The writes once the checks pass, for a printed address. */
  lemma MacWritesText(o: Octets)
    ensures MacWrites(MacText(o)) == Blown(Ok(()), MacWords(o))
  {
    MacTextSplits(o);
    MacHalvesValues(o);
    ParsePrefixed(Pair(o[2]) + Pair(o[3]) + Pair(o[4]) + Pair(o[5]));
    ParsePrefixed(Pair(o[0]) + Pair(o[1]));
  }

  /**
   * Blowing the printed form of an address behind clear lock bits writes, in order,
   * the same MAC0 and MAC1 words as the C++ tools' `Layout`, then the lock word.
   */
  lemma MacBlowText(regs: Regs, o: Octets)
    requires Lock in regs && And(regs[Lock], MacLockMask) == 0
    ensures MacBlowSpec(regs, Some(MacText(o))) == Blown(Ok(()), MacWords(o))
  {
    MacTextSplits(o);
    MacWritesText(o);
  }

  /** Eight lowercase digits are what the `08x` format prints for their value. */
  lemma PrintsAs(s: string, v: nat)
    requires |s| == 8 && AllHex(s) && LowerHex(s) && HexVal(s) == v
    ensures Hex08(v) == s
  {
    FixedHexVal(s);
    assert Pow16(8) == Pow16(|s|);
    PadDigits(v, 8);
  }

  /** Four fields in a row are lowercase hex. */
  lemma LowerFour(a: string, b: string, c: string, d: string)
    requires LowerHex(a) && LowerHex(b) && LowerHex(c) && LowerHex(d)
    ensures LowerHex(a + b + c + d)
  {
    LowerHexConcat(a, b);
    LowerHexConcat(a + b, c);
    LowerHexConcat(a + b + c, d);
  }

  /** MAC0 then prints as fields 2..5. */
  lemma Mac0Prints(o: Octets)
    ensures Hex08(Decode(Layout(o).0) as int) == Pair(o[2]) + Pair(o[3]) + Pair(o[4]) + Pair(o[5])
  {
    MacHalvesValues(o);
    LowerFour(Pair(o[2]), Pair(o[3]), Pair(o[4]), Pair(o[5]));
    PrintsAs(Pair(o[2]) + Pair(o[3]) + Pair(o[4]) + Pair(o[5]), Decode(Layout(o).0) as int);
  }

  /** Four lowercase digits print, padded to eight, behind four zeros. */
  lemma ZerosThen(t: string, v: nat)
    requires |t| == 4 && AllHex(t) && LowerHex(t) && HexVal(t) == v
    ensures Hex08(v) == "0000" + t
  {
    var z := Zeros(4);
    assert z == "0000";
    LowerHexConcat(z, t);
    HexValZeros(4);
    HexValConcat(z, t);
    PrintsAs(z + t, v);
  }

  /** MAC1 then prints as four zeros and fields 0 and 1. */
  lemma Mac1Prints(o: Octets)
    ensures Hex08(Decode(Layout(o).1) as int) == "0000" + (Pair(o[0]) + Pair(o[1]))
  {
    MacHalvesValues(o);
    LowerHexConcat(Pair(o[0]), Pair(o[1]));
    ZerosThen(Pair(o[0]) + Pair(o[1]), Decode(Layout(o).1) as int);
  }

  /** The registers after those writes. */
  lemma RegsAfterMac(regs: Regs, o: Octets)
    ensures Mac0 in Apply(regs, MacWords(o)) && Mac1 in Apply(regs, MacWords(o))
    ensures Apply(regs, MacWords(o))[Mac0] == Decode(Layout(o).0) as int
    ensures Apply(regs, MacWords(o))[Mac1] == Decode(Layout(o).1) as int
    ensures Lock in Apply(regs, MacWords(o)) && Apply(regs, MacWords(o))[Lock] == MacLockMask
  {
    var ws := MacWords(o);
    ApplyWrites(regs, ws[0], ws[1], ws[2]);
    assert Mac0[12] != Mac1[12] && Mac0[9] != Lock[9] && Mac1[9] != Lock[9];
  }

  /** Cutting the two printed words where `get` cuts them. */
  lemma CutFields(a: string, b: string, p: seq<string>)
    requires |p| == 6 && forall i :: 0 <= i < 6 ==> |p[i]| == 2
    requires a == p[2] + p[3] + p[4] + p[5] && b == "0000" + (p[0] + p[1])
    ensures [b[4..6], b[6..8], a[0..2], a[2..4], a[4..6], a[6..8]] == p
  {
    assert b[4..6] == p[0] && b[6..8] == p[1];
    assert a[0..2] == p[2] && a[2..4] == p[3];
    assert a[4..6] == p[4] && a[6..8] == p[5];
  }

  /** The six fields `get` cuts from those words are the six fields of the address. */
  lemma FieldsOfWords(o: Octets)
    ensures MacFields(Decode(Layout(o).0) as int, Decode(Layout(o).1) as int) == Pairs(o)
  {
    Mac0Prints(o);
    Mac1Prints(o);
    CutFields(Hex08(Decode(Layout(o).0) as int), Hex08(Decode(Layout(o).1) as int), Pairs(o));
  }

  /** After that blow, `EthernetMac.get` prints the address back. */
  lemma MacGetAfter(regs: Regs, o: Octets)
    ensures MacGetSpec(Apply(regs, MacWords(o))) == Ok(MacText(o))
  {
    RegsAfterMac(regs, o);
    LayoutValues(o);
    MacFusedValue(Apply(regs, MacWords(o)));
    FieldsOfWords(o);
  }

  lemma SumZero(a: int, b: int, c: int, d: int)
    requires 0 <= a < 0x100 && 0 <= b < 0x100 && 0 <= c < 0x100 && 0 <= d < 0x100
    ensures a * 0x100_0000 + b * 0x1_0000 + c * 0x100 + d == 0 <==> a == 0 && b == 0 && c == 0 && d == 0
  {}

  lemma ByteZero(b: Byte)
    ensures b as int == 0 <==> b == 0
  {}

  lemma SmallMod(w: int)
    requires 0 <= w < 0x1_0000
    ensures w % 0x1_0000 == w
  {}

  /** The two words are zero exactly when every octet is. */
  lemma WordsZero(o: Octets)
    ensures (Decode(Layout(o).0) as int != 0 || Decode(Layout(o).1) as int % 0x10000 != 0) <==> !AllZero(o)
  {
    LayoutValues(o);
    var w0, w1 := Decode(Layout(o).0) as int, Decode(Layout(o).1) as int;
    var x0, x1, x2, x3, x4, x5 := o[0] as int, o[1] as int, o[2] as int, o[3] as int, o[4] as int, o[5] as int;
    SumZero(x2, x3, x4, x5);
    SumZero(0, 0, x0, x1);
    SmallMod(w1);
    ByteZero(o[0]);
    ByteZero(o[1]);
    ByteZero(o[2]);
    ByteZero(o[3]);
    ByteZero(o[4]);
    ByteZero(o[5]);
    assert AllZero(o) <==> o[0] == 0 && o[1] == 0 && o[2] == 0 && o[3] == 0 && o[4] == 0 && o[5] == 0;
  }

  /** After that blow the fuse reads as fused unless every octet is zero. */
  lemma MacFusedAfter(regs: Regs, o: Octets)
    ensures IsFusedSpec(Apply(regs, MacWords(o)), EthernetMac) == Ok(!AllZero(o))
  {
    RegsAfterMac(regs, o);
    LayoutValues(o);
    MacFusedValue(Apply(regs, MacWords(o)));
    WordsZero(o);
  }

  /**
   * The round trip: the printed form of an address blows the words of the C++ `Layout`,
   * and `get` then prints that same text.
   */
  lemma MacRoundTrip(regs: Regs, o: Octets)
    requires Lock in regs && And(regs[Lock], MacLockMask) == 0
    ensures MacBlowSpec(regs, Some(MacText(o))) == Blown(Ok(()), MacWords(o))
    ensures MacGetSpec(Apply(regs, MacWords(o))) == Ok(MacText(o))
  {
    MacBlowText(regs, o);
    MacGetAfter(regs, o);
  }

  /**
   * Running again with the same address after a commit: exit 0 and no write, unless the
   * address is all zeros, which does not read as fused and then meets the lock bits
   * the first run set.
   */
  lemma MacRecommit(regs: Regs, o: Octets, commit: bool, verify: bool)
    requires !AllZero(o)
    ensures Decide(Apply(regs, MacWords(o)), EthernetMac, Some(MacText(o)), commit, verify) == Run(Exited(0), [])
  {
    MacGetAfter(regs, o);
    MacFusedAfter(regs, o);
  }

  /**
   * The all-zero address does not read as fused, so committing it again tries to blow
   * it and meets the lock bits the first commit set.
   */
  lemma MacZeroRecommit(regs: Regs, o: Octets)
    requires AllZero(o)
    ensures Decide(Apply(regs, MacWords(o)), EthernetMac, Some(MacText(o)), true, false)
         == Run(Raised(RuntimeError(MacLocked)), [])
  {
    MacFusedAfter(regs, o);
    RegsAfterMac(regs, o);
    MacTextSplits(o);
    AndSelf(MacLockMask);
    assert MacBlowSpec(Apply(regs, MacWords(o)), Some(MacText(o))) == Blown(Err(RuntimeError(MacLocked)), []);
  }

  /** Any other spelling of a fused address (upper case, say) counts as fused differently: exit 1. */
  lemma MacOtherSpelling(regs: Regs, o: Octets, arg: string, commit: bool, verify: bool)
    requires !AllZero(o) && arg != MacText(o)
    ensures Decide(Apply(regs, MacWords(o)), EthernetMac, Some(arg), commit, verify) == Run(Exited(1), [])
  {
    MacGetAfter(regs, o);
    MacFusedAfter(regs, o);
  }

  const ExampleOctets: Octets := [0x00, 0x11, 0x22, 0x33, 0x44, 0x55]

  lemma ExamplePairs()
    ensures Pairs(ExampleOctets) == ["00", "11", "22", "33", "44", "55"]
  {
    var o := ExampleOctets;
    assert Pair(o[0]) == "00" && Pair(o[1]) == "11" && Pair(o[2]) == "22";
    assert Pair(o[3]) == "33" && Pair(o[4]) == "44" && Pair(o[5]) == "55";
  }

  lemma ExampleText()
    ensures MacText(ExampleOctets) == "00:11:22:33:44:55"
  {
    ExamplePairs();
  }

  lemma ExampleWords()
    ensures MacWords(ExampleOctets) == [(Mac0, 0x22334455), (Mac1, 0x11), (Lock, 0x300)]
  {
    LayoutValues(ExampleOctets);
  }

  /**
   * `--fuse MAC 00:11:22:33:44:55 --commit` writes 0x22334455 to MAC0, 0x11 to MAC1 and
   * 0x300 to the lock word, and `get` then prints the same text.
   */
  lemma MacExample(regs: Regs)
    requires Lock in regs && And(regs[Lock], MacLockMask) == 0
    ensures MacBlowSpec(regs, Some("00:11:22:33:44:55"))
         == Blown(Ok(()), [(Mac0, 0x22334455), (Mac1, 0x11), (Lock, 0x300)])
    ensures MacGetSpec(Apply(regs, [(Mac0, 0x22334455), (Mac1, 0x11), (Lock, 0x300)])) == Ok("00:11:22:33:44:55")
  {
    ExampleText();
    ExampleWords();
    MacRoundTrip(regs, ExampleOctets);
  }

  /** Two leading fields `u` and `v`, then fields 2..5 of an address. */
  function HalfFields(o: Octets, u: string, v: string): (p: seq<string>)
    requires |u| == 2 && |v| == 2 && ':' !in u && ':' !in v
    ensures |p| == 6 && forall i :: 0 <= i < 6 ==> |p[i]| == 2 && ':' !in p[i]
    ensures p[0] == u && p[1] == v && forall i :: 2 <= i < 6 ==> p[i] == Pair(o[i])
  {
    PairAvoids(o[2]);
    PairAvoids(o[3]);
    PairAvoids(o[4]);
    PairAvoids(o[5]);
    [u, v, Pair(o[2]), Pair(o[3]), Pair(o[4]), Pair(o[5])]
  }

  /** A field holds no colon. */
  lemma PairAvoids(b: Byte)
    ensures ':' !in Pair(b)
  {
    HexChars(Pair(b));
  }

  /** `blow`'s writes for such fields when `u` and `v` are not hex: MAC0 alone. */
  lemma HalfWrites(o: Octets, u: string, v: string)
    requires |u| == 2 && |v| == 2 && ':' !in u && ':' !in v && ParseInt16("0x" + (u + v)) == None
    ensures MacWrites(Join(HalfFields(o, u, v), ':'))
         == Blown(Err(ValueError("0x" + (u + v))), [(Mac0, Decode(Layout(o).0) as int)])
  {
    JoinedHalves(HalfFields(o, u, v));
    MacHalvesValues(o);
    ParsePrefixed(Pair(o[2]) + Pair(o[3]) + Pair(o[4]) + Pair(o[5]));
  }

  /**
   * When fields 2..5 are hex but fields 0 and 1 are not, `blow` has written MAC0
   * before it fails on the MAC1 text; the lock word is not written.
   */
  lemma MacHalfWritten(regs: Regs, o: Octets, u: string, v: string)
    requires Lock in regs && And(regs[Lock], MacLockMask) == 0
    requires |u| == 2 && |v| == 2 && ':' !in u && ':' !in v && ParseInt16("0x" + (u + v)) == None
    ensures MacBlowSpec(regs, Some(Join(HalfFields(o, u, v), ':')))
         == Blown(Err(ValueError("0x" + (u + v))), [(Mac0, Decode(Layout(o).0) as int)])
  {
    JoinedSplit(HalfFields(o, u, v));
    HalfWrites(o, u, v);
  }
}
