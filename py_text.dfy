/**
 * The string operations flash-fuse-imx.py applies to register text and to its
 * arguments: `hex()`, the `x` format with zero fill, `int(text, 16)`,
 * `str.split`, `str.join`, `str.strip` and `str.replace(c, '')`.
 */
module PyText {
  import opened Wrappers
  import opened HexText
  import opened MacCodec

  function Pow16(n: nat): (p: nat)
    ensures p >= 1
  {
    if n == 0 then 1 else 16 * Pow16(n - 1)
  }

  /** The value of a string of hex digits, most significant digit first. */
  function HexVal(s: string): (v: nat)
    requires AllHex(s)
    ensures v < Pow16(|s|)
    decreases |s|
  {
    if s == [] then 0 else HexVal(s[..|s| - 1]) * 16 + HexValue(s[|s| - 1])
  }

  /** Hex digits in the case the `x` format prints. */
  predicate LowerHex(s: string)
  {
    forall i :: 0 <= i < |s| ==> IsHexDigit(s[i]) && !('A' <= s[i] <= 'F')
  }

  /** `format(v, 'x')`: the digits of `v`, no leading zeros. */
  function Digits(v: nat): (d: string)
    ensures |d| >= 1 && AllHex(d) && LowerHex(d)
    decreases v
  {
    if v < 16 then [LowerDigit(v)] else Digits(v / 16) + [LowerDigit(v % 16)]
  }

  /** `n` zero digits. */
  function Zeros(n: nat): (z: string)
    ensures |z| == n && AllHex(z) && LowerHex(z)
    ensures forall i :: 0 <= i < n ==> z[i] == '0'
  {
    seq(n, _ => '0')
  }

  /** Left zero fill to `width` characters, as a `0` fill width does. */
  function Pad(s: string, width: nat): (t: string)
    ensures |t| >= width && |t| >= |s|
  {
    if |s| >= width then s else Zeros(width - |s|) + s
  }

  /** `hex(v)`, as `write_fuse` writes it. */
  function Hex(v: nat): string
  {
    "0x" + Digits(v)
  }

  /** `f'{v:08x}'`. */
  function Hex08(v: nat): (s: string)
    ensures |s| >= 8
  {
    Pad(Digits(v), 8)
  }

  /** `f'{v:#010x}'`: the `0x` prefix, then at least eight digits. */
  function Hex0x08(v: nat): (s: string)
    ensures |s| >= 10
  {
    "0x" + Pad(Digits(v), 8)
  }

  /** The last `n` digits of `v`, lowercase. */
  function Fixed(v: nat, n: nat): (s: string)
    ensures |s| == n && AllHex(s) && LowerHex(s)
  {
    if n == 0 then [] else Fixed(v / 16, n - 1) + [LowerDigit(v % 16)]
  }

  // ----- values of digit strings -----

  lemma AllHexConcat(s: string, t: string)
    requires AllHex(s) && AllHex(t)
    ensures AllHex(s + t)
  {
    forall i | 0 <= i < |s + t|
      ensures IsHexDigit((s + t)[i])
    {
      if i < |s| {
        assert (s + t)[i] == s[i];
      } else {
        assert (s + t)[i] == t[i - |s|];
      }
    }
  }

  lemma LowerHexConcat(s: string, t: string)
    requires LowerHex(s) && LowerHex(t)
    ensures LowerHex(s + t)
  {
    forall i | 0 <= i < |s + t|
      ensures IsHexDigit((s + t)[i]) && !('A' <= (s + t)[i] <= 'F')
    {
      if i < |s| {
        assert (s + t)[i] == s[i];
      } else {
        assert (s + t)[i] == t[i - |s|];
      }
    }
  }

  /** A string of hex digits holds no separator, newline or `x`. */
  lemma HexChars(s: string)
    requires AllHex(s)
    ensures ':' !in s && ',' !in s && '\n' !in s && 'x' !in s
  {}

  lemma LowerIsHex(s: string)
    requires LowerHex(s)
    ensures AllHex(s)
  {}

  lemma Regroup(x: int, p: int, y: int, d: int)
    ensures (x * p + y) * 16 + d == x * (p * 16) + (y * 16 + d)
  {}

  /** Digits written after `s` shift its value up by one hex place each. */
  lemma {:induction false} HexValConcat(s: string, t: string)
    requires AllHex(s) && AllHex(t)
    ensures AllHex(s + t) && HexVal(s + t) == HexVal(s) * Pow16(|t|) + HexVal(t)
    decreases |t|
  {
    AllHexConcat(s, t);
    if t == [] {
      assert s + t == s;
    } else {
      var t' := t[..|t| - 1];
      var d := HexValue(t[|t| - 1]);
      assert AllHex(t');
      assert (s + t)[..|s + t| - 1] == s + t' && (s + t)[|s + t| - 1] == t[|t| - 1];
      HexValConcat(s, t');
      var x, p, y := HexVal(s), Pow16(|t'|), HexVal(t');
      assert HexVal(s + t) == HexVal(s + t') * 16 + d;
      assert Pow16(|t|) == p * 16;
      assert HexVal(t) == y * 16 + d;
      Regroup(x, p, y, d);
    }
  }

  lemma {:induction false} HexValZeros(n: nat)
    ensures HexVal(Zeros(n)) == 0
  {
    if n > 0 {
      assert Zeros(n)[..n - 1] == Zeros(n - 1);
      HexValZeros(n - 1);
    }
  }

  /** Zero fill does not change the value. */
  lemma HexValPad(s: string, width: nat)
    requires AllHex(s)
    ensures AllHex(Pad(s, width)) && HexVal(Pad(s, width)) == HexVal(s)
  {
    if |s| < width {
      HexValZeros(width - |s|);
      HexValConcat(Zeros(width - |s|), s);
    }
  }

  /** `int(format(v, 'x'), 16) == v`. */
  lemma {:induction false} HexValDigits(v: nat)
    ensures HexVal(Digits(v)) == v
    decreases v
  {
    if v >= 16 {
      var d := Digits(v);
      assert d[..|d| - 1] == Digits(v / 16);
      HexValDigits(v / 16);
    }
  }

  /** A digit string is the fixed-width form of its own value. */
  lemma {:induction false} FixedHexVal(s: string)
    requires AllHex(s) && LowerHex(s)
    ensures Fixed(HexVal(s), |s|) == s
    decreases |s|
  {
    if s != [] {
      var s' := s[..|s| - 1];
      var c := s[|s| - 1];
      assert s == s' + [c];
      assert AllHex(s') && LowerHex(s');
      FixedHexVal(s');
      FixedAppend(s', c);
    }
  }

  /** Appending a lower-case digit keeps a digit string its own fixed-width form. */
  lemma FixedAppend(s: string, c: char)
    requires AllHex(s) && IsHexDigit(c) && !('A' <= c <= 'F')
    requires Fixed(HexVal(s), |s|) == s
    ensures AllHex(s + [c]) && Fixed(HexVal(s + [c]), |s + [c]|) == s + [c]
  {
    HexValSnoc(s, c);
    LowerRoundTrip(c);
    FixedSnoc(HexVal(s + [c]), HexVal(s), HexValue(c), |s|);
  }

  /** The value of a digit string with one more digit. */
  lemma HexValSnoc(s: string, c: char)
    requires AllHex(s) && IsHexDigit(c)
    ensures AllHex(s + [c]) && HexVal(s + [c]) == HexVal(s) * 16 + HexValue(c)
  {
    var t := s + [c];
    assert t[..|t| - 1] == s && t[|t| - 1] == c;
  }

  /** The fixed-width digits of `x * 16 + d` end with the digit of `d`. */
  lemma FixedSnoc(v: nat, x: nat, d: nat, n: nat)
    requires d < 16 && v == x * 16 + d
    ensures Fixed(v, n + 1) == Fixed(x, n) + [LowerDigit(d)]
  {
    DigitSplit(x, d);
  }

  /** A lower-case digit is the digit of its own value. */
  lemma LowerRoundTrip(c: char)
    requires IsHexDigit(c) && !('A' <= c <= 'F')
    ensures LowerDigit(HexValue(c)) == c
  {
  }

  /** Appending digit `d` to the digits of `x` is undone by `/ 16` and `% 16`. */
  lemma DigitSplit(x: nat, d: nat)
    requires d < 16
    ensures (x * 16 + d) / 16 == x && (x * 16 + d) % 16 == d
  {
  }

  /** Below `16^n`, the zero-filled digits are the `n`-digit form. */
  lemma {:induction false} PadDigits(v: nat, n: nat)
    requires 1 <= n && v < Pow16(n)
    ensures Pad(Digits(v), n) == Fixed(v, n)
  {
    HexValDigits(v);
    HexValPad(Digits(v), n);
    var p := Pad(Digits(v), n);
    DigitsLength(v, n);
    assert |p| == n;
    assert LowerHex(p) by {
      if |Digits(v)| < n {
        assert p == Zeros(n - |Digits(v)|) + Digits(v);
      }
    }
    FixedHexVal(p);
  }

  lemma {:induction false} DigitsLength(v: nat, n: nat)
    requires 1 <= n && v < Pow16(n)
    ensures |Digits(v)| <= n
    decreases v
  {
    if v >= 16 {
      assert n >= 2;
      assert v / 16 < Pow16(n - 1);
      DigitsLength(v / 16, n - 1);
    }
  }

  // ----- int(text, 16) -----

  /** The ASCII characters `str.strip()` removes: those `str.isspace` holds for. */
  const Whitespace: set<char> := {' ', '\t', '\n', '\r', '\U{000B}', '\U{000C}',
                                  '\U{001C}', '\U{001D}', '\U{001E}', '\U{001F}'}

  function StripStart(s: string, cs: set<char>): (t: string)
    ensures |t| <= |s| && t == s[|s| - |t|..]
    ensures t == [] || t[0] !in cs
    decreases |s|
  {
    if |s| > 0 && s[0] in cs then StripStart(s[1..], cs) else s
  }

  function StripEnd(s: string, cs: set<char>): (t: string)
    ensures |t| <= |s| && t == s[..|t|]
    ensures t == [] || t[|t| - 1] !in cs
    decreases |s|
  {
    if |s| > 0 && s[|s| - 1] in cs then StripEnd(s[..|s| - 1], cs) else s
  }

  /** `s.strip(cs)`: characters of `cs` removed from both ends. */
  function Strip(s: string, cs: set<char>): (t: string)
    ensures |t| <= |s|
    ensures t == [] || (t[0] !in cs && t[|t| - 1] !in cs)
  {
    StripEnd(StripStart(s, cs), cs)
  }

  /** A string that starts and ends outside `cs` is its own strip. */
  lemma StripNothing(s: string, cs: set<char>)
    requires s != [] && s[0] !in cs && s[|s| - 1] !in cs
    ensures Strip(s, cs) == s
  {}

  /** A string with no character of `cs` is its own strip. */
  lemma StripNone(s: string, cs: set<char>)
    requires forall i :: 0 <= i < |s| ==> s[i] !in cs
    ensures Strip(s, cs) == s
  {
    if s != [] {
      assert s[0] !in cs && s[|s| - 1] !in cs;
      StripNothing(s, cs);
    } else {
      assert StripStart(s, cs) == s;
    }
  }

  /** Removing trailing characters of `cs` after a string that ends outside `cs`. */
  lemma {:induction false} StripEndTrailing(s: string, tail: string, cs: set<char>)
    requires s != [] && s[|s| - 1] !in cs
    requires forall i :: 0 <= i < |tail| ==> tail[i] in cs
    ensures StripEnd(s + tail, cs) == s
    decreases |tail|
  {
    var x := s + tail;
    if tail == [] {
      assert x == s;
    } else {
      assert x[|x| - 1] == tail[|tail| - 1];
      assert x[..|x| - 1] == s + tail[..|tail| - 1];
      StripEndTrailing(s, tail[..|tail| - 1], cs);
    }
  }

  /** Stripping trailing characters of `cs` after such a string. */
  lemma StripTrailing(s: string, tail: string, cs: set<char>)
    requires s != [] && s[0] !in cs && s[|s| - 1] !in cs
    requires forall i :: 0 <= i < |tail| ==> tail[i] in cs
    ensures Strip(s + tail, cs) == s
  {
    assert (s + tail)[0] == s[0];
    assert StripStart(s + tail, cs) == s + tail;
    StripEndTrailing(s, tail, cs);
  }

  /**
   * `int(text, 16)`: surrounding whitespace ignored, an optional `0x` or `0X`
   * prefix, then at least one hex digit; anything else is a ValueError (None).
   */
  function ParseInt16(text: string): (r: Option<nat>)
    ensures r.Some? ==> exists body :: AllHex(body) && body != [] && r.value == HexVal(body)
  {
    var t := Strip(text, Whitespace);
    var body := if |t| >= 2 && t[0] == '0' && (t[1] == 'x' || t[1] == 'X') then t[2..] else t;
    if body != [] && AllHex(body) then Some(HexVal(body)) else None
  }

  /** `int(text, 16)` when the strip of `text` is digits without a prefix. */
  lemma ParseBody(text: string, t: string)
    requires Strip(text, Whitespace) == t
    requires t != [] && AllHex(t) && !(|t| >= 2 && t[0] == '0' && (t[1] == 'x' || t[1] == 'X'))
    ensures ParseInt16(text) == Some(HexVal(t))
  {}

  /** `int('0x' + digits, 16)`. */
  lemma ParsePrefixed(digits: string)
    requires digits != [] && AllHex(digits)
    ensures ParseInt16("0x" + digits) == Some(HexVal(digits))
  {
    StripNothing("0x" + digits, Whitespace);
    assert ("0x" + digits)[2..] == digits;
  }

  /** What `write_fuse` writes, `read_fuse` reads back. */
  lemma WrittenReadsBack(v: nat)
    ensures ParseInt16(Hex(v) + "\n") == Some(v)
  {
    var s := Hex(v);
    StripTrailing(s, "\n", Whitespace);
    assert s[2..] == Digits(v);
    HexValDigits(v);
  }

  /** `f'{v:#010x}'` parses back to `v`. */
  lemma ParseHex0x08(v: nat)
    ensures ParseInt16(Hex0x08(v)) == Some(v)
  {
    var p := Pad(Digits(v), 8);
    HexValPad(Digits(v), 8);
    HexValDigits(v);
    ParsePrefixed(p);
  }

  // ----- split, join, replace -----

  /** `s.split(c)`: the pieces between occurrences of `c`; one piece when there is none. */
  function Split(s: string, c: char): (parts: seq<string>)
    ensures |parts| >= 1
    decreases |s|
  {
    if s == [] then [""]
    else
      var rest := Split(s[1..], c);
      if s[0] == c then [""] + rest else [[s[0]] + rest[0]] + rest[1..]
  }

  /** `c.join(parts)`. */
  function Join(parts: seq<string>, c: char): string
    decreases |parts|
  {
    if parts == [] then ""
    else if |parts| == 1 then parts[0]
    else parts[0] + [c] + Join(parts[1..], c)
  }

  /** `''.join(parts)`. */
  function Concat(parts: seq<string>): string
    decreases |parts|
  {
    if parts == [] then "" else parts[0] + Concat(parts[1..])
  }

  /** `s.replace(c, '')`. */
  function Remove(s: string, c: char): (t: string)
    ensures c !in t
    decreases |s|
  {
    if s == [] then "" else (if s[0] == c then "" else [s[0]]) + Remove(s[1..], c)
  }

  /** Rejoining the pieces of a split gives the string back. */
  lemma {:induction false} JoinSplit(s: string, c: char)
    ensures Join(Split(s, c), c) == s
    decreases |s|
  {
    if s != [] {
      var rest := Split(s[1..], c);
      JoinSplit(s[1..], c);
      if s[0] != c && |rest| > 1 {
        assert Join(rest, c) == rest[0] + [c] + Join(rest[1..], c);
        assert Split(s, c)[1..] == rest[1..];
      }
    }
  }

  /** No piece of a split holds the separator. */
  lemma {:induction false} SplitPieces(s: string, c: char)
    ensures forall i :: 0 <= i < |Split(s, c)| ==> c !in Split(s, c)[i]
    decreases |s|
  {
    if s != [] {
      SplitPieces(s[1..], c);
      var rest := Split(s[1..], c);
      if s[0] != c {
        var parts := Split(s, c);
        forall i | 0 <= i < |parts|
          ensures c !in parts[i]
        {
          if i > 0 {
            assert parts[i] == rest[i];
          } else {
            assert c !in rest[0];
          }
        }
      }
    }
  }

  /** A string without `c` splits into itself. */
  lemma {:induction false} SplitNone(w: string, c: char)
    requires c !in w
    ensures Split(w, c) == [w]
    decreases |w|
  {
    if w != [] {
      SplitNone(w[1..], c);
      assert [w[0]] + w[1..] == w;
    }
  }

  /** Splitting at the first separator. */
  lemma {:induction false} SplitFirst(w: string, t: string, c: char)
    requires c !in w
    ensures Split(w + [c] + t, c) == [w] + Split(t, c)
    decreases |w|
  {
    if w == [] {
      assert ([] + [c] + t)[1..] == t;
    } else {
      assert (w + [c] + t)[1..] == w[1..] + [c] + t;
      SplitFirst(w[1..], t, c);
      assert [w[0]] + w[1..] == w;
    }
  }

  /** Splitting pieces joined by a separator none of them holds gives the pieces back. */
  lemma {:induction false} SplitJoin(parts: seq<string>, c: char)
    requires |parts| >= 1 && forall i :: 0 <= i < |parts| ==> c !in parts[i]
    ensures Split(Join(parts, c), c) == parts
    decreases |parts|
  {
    if |parts| == 1 {
      SplitNone(parts[0], c);
    } else {
      SplitJoin(parts[1..], c);
      SplitFirst(parts[0], Join(parts[1..], c), c);
    }
  }

  lemma {:induction false} RemoveConcat(s: string, t: string, c: char)
    ensures Remove(s + t, c) == Remove(s, c) + Remove(t, c)
    decreases |s|
  {
    if s == [] {
      assert s + t == t;
    } else {
      var h: string := if s[0] == c then "" else [s[0]];
      assert (s + t)[1..] == s[1..] + t && (s + t)[0] == s[0];
      assert Remove(s + t, c) == h + Remove(s[1..] + t, c);
      RemoveConcat(s[1..], t, c);
      var a, b := Remove(s[1..], c), Remove(t, c);
      assert h + (a + b) == (h + a) + b;
    }
  }

  lemma {:induction false} RemoveNone(w: string, c: char)
    requires c !in w
    ensures Remove(w, c) == w
    decreases |w|
  {
    if w != [] {
      RemoveNone(w[1..], c);
      assert [w[0]] + w[1..] == w;
    }
  }

  /** Removing the separator from joined pieces concatenates them. */
  lemma {:induction false} RemoveJoin(parts: seq<string>, c: char)
    requires forall i :: 0 <= i < |parts| ==> c !in parts[i]
    ensures Remove(Join(parts, c), c) == Concat(parts)
    decreases |parts|
  {
    if parts != [] {
      var w := parts[0];
      RemoveNone(w, c);
      if |parts| == 1 {
        assert Concat(parts) == w + Concat([]);
      } else {
        var rest := Join(parts[1..], c);
        var tail := Concat(parts[1..]);
        RemoveJoin(parts[1..], c);
        assert Join(parts, c) == w + ([c] + rest);
        RemoveConcat(w, [c] + rest, c);
        RemoveConcat([c], rest, c);
        assert Remove([c], c) == [];
        assert Remove([c] + rest, c) == tail;
        assert Concat(parts) == w + tail;
      }
    }
  }

  /** A character that is neither the separator nor in any piece is not in the joined string. */
  lemma {:induction false} JoinAvoids(parts: seq<string>, c: char, x: char)
    requires x != c && forall i :: 0 <= i < |parts| ==> x !in parts[i]
    ensures x !in Join(parts, c)
    decreases |parts|
  {
    if |parts| > 1 {
      JoinAvoids(parts[1..], c, x);
    }
  }
}
