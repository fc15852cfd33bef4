/**
 * The MAC address text and fuse layout shared by `MACFuse` (flash-fuse-common.cpp)
 * and `FuseMAC` (flash-fuse-imx8mm.cpp).
 *
 * The text is twelve hex digits, octet 0 first. Octets 2..5 go into the first
 * fuse word, octet 5 in its least significant byte; octets 0 and 1 go into the
 * low half of the second word, octet 1 least significant; the high half of the
 * second word is written as zero.
 */
module MacCodec {
  import opened Wrappers
  import opened Bits
  import opened Nvmem
  import opened HexText

  type Octets = o: seq<Byte> | |o| == 6 witness [0, 0, 0, 0, 0, 0]

  type Nibble = n: bv8 | n < 16

  /** The value of the high and of the low four bits of an octet. */
  function Hi(b: Byte): (d: nat)
    ensures d < 16
  {
    (b >> 4) as int
  }

  function Lo(b: Byte): (d: nat)
    ensures d < 16
  {
    (b & 0xf) as int
  }

  /** The octet whose high and low digits are `hi` and `lo`. */
  function Octet(hi: nat, lo: nat): (b: Byte)
    requires hi < 16 && lo < 16
    ensures Hi(b) == hi && Lo(b) == lo
  {
    var h: Nibble := hi as bv8;
    var l: Nibble := lo as bv8;
    assert (h as int) == hi && (l as int) == lo;
    (h << 4) | l
  }

  /** An octet is determined by its two digits. */
  lemma OctetOfDigits(b: Byte)
    ensures Octet(Hi(b), Lo(b)) == b
  {
    var h: Nibble := b >> 4;
    var l: Nibble := b & 0xf;
    assert Hi(b) as bv8 == h && Lo(b) as bv8 == l;
    assert (h << 4) | l == b;
  }

  /** The octet one `%02hhX` conversion reads from two digits. */
  function Field(hi: char, lo: char): (b: Byte)
    requires IsHexDigit(hi) && IsHexDigit(lo)
    ensures Hi(b) == HexValue(hi) && Lo(b) == HexValue(lo)
  {
    Octet(HexValue(hi), HexValue(lo))
  }

  /** Every character is a hex digit. */
  predicate AllHex(s: string)
  {
    forall i :: 0 <= i < |s| ==> IsHexDigit(s[i])
  }

  /** Consecutive `%02hhX` conversions over a string of hex digit pairs. */
  function ScanPairs(s: string): (o: seq<Byte>)
    requires |s| % 2 == 0 && AllHex(s)
    ensures |o| == |s| / 2
    decreases |s|
  {
    if s == [] then [] else [Field(s[0], s[1])] + ScanPairs(s[2..])
  }

  /** Six `%02hhX` conversions over the first twelve characters of `arg`. */
  function Scan(arg: string): (r: Option<Octets>)
    ensures r.Some? <==> |arg| >= 12 && AllHex(arg[..12])
  {
    if |arg| >= 12 && AllHex(arg[..12]) then Some(ScanPairs(arg[..12])) else None
  }

  /** `%02X` of one octet. */
  function Hex2(b: Byte): (s: string)
    ensures |s| == 2
  {
    [UpperDigit(Hi(b)), UpperDigit(Lo(b))]
  }

  /** `%02X` of each octet in turn. */
  function HexPairs(o: seq<Byte>): (s: string)
    ensures |s| == 2 * |o| && AllHex(s)
  {
    if o == [] then [] else Hex2(o[0]) + HexPairs(o[1..])
  }

  /** Six `%02X` conversions. */
  function Format(o: Octets): (s: string)
    ensures |s| == 12
  {
    HexPairs(o)
  }

  /** Printing from octet `i` on is `%02X` of octet `i` followed by the rest. */
  lemma HexPairsFrom(o: seq<Byte>, i: nat)
    requires i < |o|
    ensures HexPairs(o[i..]) == Hex2(o[i]) + HexPairs(o[i + 1..])
  {
    assert o[i..][0] == o[i] && o[i..][1..] == o[i + 1..];
  }

  /** Six `%02X` conversions, one per octet. */
  lemma FormatOctets(o: Octets)
    ensures Format(o) == Hex2(o[0]) + (Hex2(o[1]) + (Hex2(o[2]) + (Hex2(o[3]) + (Hex2(o[4]) + Hex2(o[5])))))
  {
    HexPairsFrom(o, 5);
    var p5 := HexPairs(o[5..]);
    assert o[6..] == [];
    assert p5 == Hex2(o[5]);
    HexPairsFrom(o, 4);
    HexPairsFrom(o, 3);
    HexPairsFrom(o, 2);
    HexPairsFrom(o, 1);
    HexPairsFrom(o, 0);
    assert o[0..] == o;
  }

  /** Hex digits in the case `%X` prints them. */
  function Upper(s: string): (u: string)
    requires AllHex(s)
    ensures |u| == |s| && AllHex(u)
  {
    if s == [] then [] else [ToUpper(s[0])] + Upper(s[1..])
  }

  lemma {:induction false} UpperAt(s: string)
    requires AllHex(s)
    ensures forall i :: 0 <= i < |s| ==> Upper(s)[i] == ToUpper(s[i])
  {
    if s != [] {
      UpperAt(s[1..]);
    }
  }

  /** `%02X` of the octet read from two digits prints those digits in upper case. */
  lemma Hex2Field(hi: char, lo: char)
    requires IsHexDigit(hi) && IsHexDigit(lo)
    ensures Hex2(Field(hi, lo)) == [ToUpper(hi), ToUpper(lo)]
  {}

  /** Scanning takes the first two digits, then goes on with the rest. */
  lemma ScanStep(s: string)
    requires s != [] && |s| % 2 == 0 && AllHex(s)
    ensures AllHex(s[2..])
    ensures ScanPairs(s) == [Field(s[0], s[1])] + ScanPairs(s[2..])
  {
    assert forall i :: 0 <= i < |s| - 2 ==> s[2..][i] == s[i + 2];
  }

  /** The digits after the first `k` are hex digits too. */
  lemma AllHexFrom(s: string, k: nat)
    requires k <= |s| && AllHex(s)
    ensures AllHex(s[k..])
  {
    assert forall i :: 0 <= i < |s| - k ==> s[k..][i] == s[i + k];
  }

  /** Upper-casing takes the first digit, then goes on with the rest. */
  lemma UpperCons(s: string)
    requires s != [] && AllHex(s)
    ensures AllHex(s[1..])
    ensures Upper(s) == [ToUpper(s[0])] + Upper(s[1..])
  {
    AllHexFrom(s, 1);
  }

  lemma ConsTwo(a: char, b: char, u: string)
    ensures [a] + ([b] + u) == [a, b] + u
  {
    assert forall i :: 0 <= i < |u| ==> ([a] + ([b] + u))[i + 2] == u[i];
  }

  /** Upper-casing takes the first two digits, then goes on with the rest. */
  lemma UpperStep(s: string)
    requires |s| >= 2 && AllHex(s)
    ensures AllHex(s[2..])
    ensures Upper(s) == [ToUpper(s[0]), ToUpper(s[1])] + Upper(s[2..])
  {
    UpperCons(s);
    var t := s[1..];
    UpperCons(t);
    assert t[0] == s[1] && t[1..] == s[2..];
    ConsTwo(ToUpper(s[0]), ToUpper(s[1]), Upper(s[2..]));
  }

  /** Printing scanned pairs gives the digits back, in upper case. */
  lemma {:induction false} HexPairsScanPairs(s: string)
    requires |s| % 2 == 0 && AllHex(s)
    ensures HexPairs(ScanPairs(s)) == Upper(s)
    decreases |s|
  {
    if s != [] {
      ScanStep(s);
      UpperStep(s);
      var o, head, rest := ScanPairs(s), Field(s[0], s[1]), ScanPairs(s[2..]);
      assert o[0] == head && o[1..] == rest;
      HexPairsScanPairs(s[2..]);
      Hex2Field(s[0], s[1]);
    }
  }

  /** Scanning printed octets gives them back. */
  lemma {:induction false} ScanPairsHexPairs(o: seq<Byte>)
    ensures ScanPairs(HexPairs(o)) == o
  {
    if o != [] {
      var s := HexPairs(o);
      assert s[2..] == HexPairs(o[1..]);
      ScanPairsHexPairs(o[1..]);
      OctetOfDigits(o[0]);
    }
  }

  /** All printed digits are zeros. */
  predicate AllZeroDigits(s: string)
  {
    forall i :: 0 <= i < |s| ==> s[i] == '0'
  }

  /** All octets are zero. */
  predicate AllZero(o: seq<Byte>)
  {
    forall j :: 0 <= j < |o| ==> o[j] == 0
  }

  lemma AllZeroCons(o: seq<Byte>)
    requires o != []
    ensures AllZero(o) <==> o[0] == 0 && AllZero(o[1..])
  {
    assert forall j :: 0 < j < |o| ==> o[j] == o[1..][j - 1];
  }

  lemma ZeroDigitsConcat(a: string, t: string)
    requires |a| == 2
    ensures AllZeroDigits(a + t) <==> a[0] == '0' && a[1] == '0' && AllZeroDigits(t)
  {
    var s := a + t;
    assert s[0] == a[0] && s[1] == a[1];
    assert forall i :: 2 <= i < |s| ==> s[i] == t[i - 2];
    if AllZeroDigits(s) {
      forall j | 0 <= j < |t|
        ensures t[j] == '0'
      {
        assert t[j] == s[j + 2];
      }
    }
  }

  /** `%02X` prints "00" for the zero octet only. */
  lemma Hex2Zero(b: Byte)
    ensures Hex2(b)[0] == '0' && Hex2(b)[1] == '0' <==> b == 0
  {
    OctetOfDigits(b);
  }

  /** Printed octets are all zeros exactly when every octet is zero. */
  lemma {:induction false} HexPairsZero(o: seq<Byte>)
    ensures AllZeroDigits(HexPairs(o)) <==> AllZero(o)
  {
    if o != [] {
      HexPairsZero(o[1..]);
      AllZeroCons(o);
      ZeroDigitsConcat(Hex2(o[0]), HexPairs(o[1..]));
      Hex2Zero(o[0]);
    }
  }

  /** Printing the scanned octets gives the argument back, in upper case. */
  lemma ScanThenFormat(arg: string)
    requires |arg| == 12 && Scan(arg).Some?
    ensures Format(Scan(arg).value) == Upper(arg)
    ensures forall i :: 0 <= i < 12 ==> Format(Scan(arg).value)[i] == ToUpper(arg[i])
  {
    assert arg[..12] == arg;
    HexPairsScanPairs(arg);
    UpperAt(arg);
  }

  /** Scanning printed octets gives them back. */
  lemma FormatThenScan(o: Octets)
    ensures Scan(Format(o)) == Some(o)
  {
    ScanPairsHexPairs(o);
    assert Format(o)[..12] == Format(o);
  }

  /** The printed address is all zeros exactly when every octet is zero. */
  lemma FormatZero(o: Octets)
    ensures Format(o) == "000000000000" <==> AllZero(o)
  {
    HexPairsZero(o);
    var s := Format(o);
    if AllZeroDigits(s) {
      assert s == "000000000000";
    }
  }

  /** The two fuse words `set` writes for an address. */
  function Layout(o: Octets): (words: (Buf, Buf))
  {
    ([o[5], o[4], o[3], o[2]], [o[1], o[0], 0, 0])
  }

  /** The address `get` reads from the two fuse words. */
  function Unlayout(mac0: Buf, mac1: Buf): (o: Octets)
    ensures mac1[2] == 0 && mac1[3] == 0 <==> Layout(o) == (mac0, mac1)
  {
    assert mac0 == [mac0[0], mac0[1], mac0[2], mac0[3]];
    assert mac1 == [mac1[0], mac1[1], mac1[2], mac1[3]];
    [mac1[1], mac1[0], mac0[3], mac0[2], mac0[1], mac0[0]]
  }

  /** Reading back the words `set` writes gives the same address. */
  lemma UnlayoutLayout(o: Octets)
    ensures Unlayout(Layout(o).0, Layout(o).1) == o
  {}

  /** The first word holds octets 2..5 with octet 5 least significant; the second holds octets 0 and 1 in its low half. */
  lemma LayoutWords(o: Octets)
    ensures Decode(Layout(o).0) == (o[2] as Word << 24) | (o[3] as Word << 16) | (o[4] as Word << 8) | o[5] as Word
    ensures Decode(Layout(o).1) == (o[0] as Word << 8) | o[1] as Word
  {}

  /** The text `get` prints for two fuse words. */
  function Text(mac0: Buf, mac1: Buf): (s: string)
    ensures |s| == 12
    ensures s == "000000000000" <==> mac0 == [0, 0, 0, 0] && mac1[0] == 0 && mac1[1] == 0
  {
    var o := Unlayout(mac0, mac1);
    FormatZero(o);
    assert AllZero(o) <==> o[0] == 0 && o[1] == 0 && o[2] == 0 && o[3] == 0 && o[4] == 0 && o[5] == 0;
    assert mac0 == [0, 0, 0, 0] <==> mac0[0] == 0 && mac0[1] == 0 && mac0[2] == 0 && mac0[3] == 0;
    Format(o)
  }
}
