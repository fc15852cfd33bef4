/**
 * The fuse kinds of flash-fuse-common.cpp over an nvmem image.
 *
 * A fuse object only holds where its bits live; the state it works on is the
 * image. `valid_arg` needs no image and is a function. `get`, `is_fuseable` and
 * `set` are methods on an `Image`, each proved equal to a specification function
 * of the image, and the properties are stated as lemmas about those functions.
 *
 * Fuse word `offset` is read and written at byte position `offset * 4`, as
 * `read_fuse` and `write_fuse` seek.
 */
module CommonFuse {
  import opened Wrappers
  import opened Bits
  import opened Nvmem
  import opened StdMap
  import opened HexText
  import opened MacCodec

  /** `FlagFuse(nvmem, offset, mask, flags)`: a named selector inside a masked field. */
  datatype FlagFuse = FlagFuse(offset: int, mask: Word, flags: Entries<Word>)

  /** `MACFuse(nvmem, offset1, offset2)`: six octets in two fuse words. */
  datatype MacFuse = MacFuse(offset1: int, offset2: int)

  /**
   * What `make_fuse` can return. `SRKFuse` and `MAC2Fuse` are constructed by the
   * SoC files but their methods are not part of this model.
   */
  datatype Fuse =
    | Flag(flag: FlagFuse)
    | Mac(mac: MacFuse)
    | Srk(srkOffsets: seq<int>)
    | Mac2(mac2Offset1: int, mac2Offset2: int)

  /** The byte position `lseek` moves to for fuse word `offset`. */
  function Position(offset: int): int
  {
    offset * 4
  }

  // ---------------------------------------------------------------- FlagFuse

  /** Selectors lie inside the mask and are pairwise distinct. */
  predicate FlagWellFormed(f: FlagFuse)
  {
    (forall i :: 0 <= i < |f.flags| ==> Within(f.flags[i].1, f.mask))
    && (forall i, j :: 0 <= i < j < |f.flags| ==> f.flags[i].1 != f.flags[j].1)
  }

  /** `FlagFuse::valid_arg`: `contains`. */
  function FlagValidArg(f: FlagFuse, arg: string): (ok: bool)
    ensures ok <==> exists i :: 0 <= i < |f.flags| && f.flags[i].0 == arg
  {
    Contains(f.flags, arg)
  }

  /**
   * The name the range-for of `FlagFuse::get` returns for a masked value: the first
   * entry, in iteration order, whose bits equal it, else "UNKNOWN".
   */
  function NameOf(flags: Entries<Word>, val: Word): string
  {
    if flags == [] then "UNKNOWN"
    else if flags[0].1 == val then flags[0].0
    else NameOf(flags[1..], val)
  }

  /** No entry has the value: "UNKNOWN". */
  lemma {:induction false} NameOfNone(flags: Entries<Word>, val: Word)
    requires forall i :: 0 <= i < |flags| ==> flags[i].1 != val
    ensures NameOf(flags, val) == "UNKNOWN"
  {
    if flags != [] {
      assert forall i :: 0 <= i < |flags[1..]| ==> flags[1..][i] == flags[i + 1];
      NameOfNone(flags[1..], val);
    }
  }

  /** Entry `i` is the first with the value: its name. */
  lemma {:induction false} NameOfFirst(flags: Entries<Word>, val: Word, i: int)
    requires 0 <= i < |flags| && flags[i].1 == val
    requires forall j :: 0 <= j < i ==> flags[j].1 != val
    ensures NameOf(flags, val) == flags[i].0
  {
    if i > 0 {
      assert forall j :: 0 <= j < i - 1 ==> flags[1..][j] == flags[j + 1];
      NameOfFirst(flags[1..], val, i - 1);
    }
  }

  /** The name returned is "UNKNOWN" or the name of an entry with the value. */
  lemma {:induction false} NameOfFound(flags: Entries<Word>, val: Word)
    ensures NameOf(flags, val) == "UNKNOWN" || (NameOf(flags, val), val) in flags
  {
    if flags != [] && flags[0].1 != val {
      NameOfFound(flags[1..], val);
    }
  }

  /** The name `get` returns for fuse word `w`. */
  function FlagName(f: FlagFuse, w: Word): string
  {
    NameOf(f.flags, Masked(w, f.mask))
  }

  /** `is_fuseable` on fuse word `w`; `at` throws on an unknown name. */
  function FlagAllows(f: FlagFuse, w: Word, arg: string): (r: Result<bool, Error>)
    ensures r.Err? <==> !Contains(f.flags, arg)
    ensures r.Err? ==> r.error == OutOfRange
  {
    match Find(f.flags, arg)
    case None => Err(OutOfRange)
    case Some(v) => Ok(Within(Masked(w, f.mask), v))
  }

  function FlagGetSpec(img: seq<Byte>, f: FlagFuse): Result<string, Error>
  {
    match ReadAt(img, Position(f.offset))
    case Err(e) => Err(e)
    case Ok(b) => Ok(FlagName(f, Decode(b)))
  }

  function FlagFuseableSpec(img: seq<Byte>, f: FlagFuse, arg: string): Result<bool, Error>
  {
    match ReadAt(img, Position(f.offset))
    case Err(e) => Err(e)
    case Ok(b) => FlagAllows(f, Decode(b), arg)
  }

  /** `FlagFuse::set`: looks the value up by name, then overwrites the whole word with it. */
  function FlagSetSpec(img: seq<Byte>, f: FlagFuse, arg: string): Effect
  {
    match Find(f.flags, arg)
    case None => Effect(Err(OutOfRange), img, [])
    case Some(v) => Put(img, Position(f.offset), Encode(v))
  }

  method FlagGet(store: Image, f: FlagFuse) returns (r: Result<string, Error>)
    ensures r == FlagGetSpec(store.bytes, f)
  {
    var b := store.Read(Position(f.offset));
    if b.Err? {
      return Err(b.error);
    }
    var val := Masked(Decode(b.value), f.mask);
    var i := 0;
    while i < |f.flags|
      invariant 0 <= i <= |f.flags|
      invariant NameOf(f.flags, val) == NameOf(f.flags[i..], val)
    {
      if f.flags[i].1 == val {
        return Ok(f.flags[i].0);
      }
      assert f.flags[i..][1..] == f.flags[i + 1..];
      i := i + 1;
    }
    return Ok("UNKNOWN");
  }

  method FlagIsFuseable(store: Image, f: FlagFuse, arg: string) returns (r: Result<bool, Error>)
    ensures r == FlagFuseableSpec(store.bytes, f, arg)
  {
    var b := store.Read(Position(f.offset));
    if b.Err? {
      return Err(b.error);
    }
    return FlagAllows(f, Decode(b.value), arg);
  }

  method FlagSet(store: Image, f: FlagFuse, arg: string) returns (r: Result<(), Error>)
    modifies store
    ensures var e := FlagSetSpec(old(store.bytes), f, arg);
      r == e.result && store.bytes == e.image && store.trace == old(store.trace) + e.writes
  {
    var v := Find(f.flags, arg);
    if v.None? {
      return Err(OutOfRange);
    }
    r := store.Write(Position(f.offset), Encode(v.value));
  }

  /** `valid_arg` holds exactly for the names `is_fuseable` and `set` accept. */
  lemma FlagValidArgAgrees(img: seq<Byte>, f: FlagFuse, arg: string)
    requires Fits(|img|, Position(f.offset))
    ensures FlagValidArg(f, arg) <==> FlagFuseableSpec(img, f, arg).Ok?
    ensures FlagValidArg(f, arg) <==> FlagSetSpec(img, f, arg).result.Ok?
  {}

  /**
   * `is_fuseable` allows an argument exactly when every bit already set in the field
   * is also set in the argument's value: the field would only gain bits.
   */
  lemma FlagAllowsOnlyAdds(f: FlagFuse, w: Word, arg: string)
    requires Contains(f.flags, arg)
    ensures FlagAllows(f, w, arg) == Ok(true)
      <==> forall k: Index :: HasBit(Masked(w, f.mask), k) ==> HasBit(Find(f.flags, arg).value, k)
  {
    WithinBits(Masked(w, f.mask), Find(f.flags, arg).value);
  }

  /** Bits of the word outside the mask do not matter to `get` or `is_fuseable`. */
  lemma FlagIgnoresUnmasked(f: FlagFuse, w: Word, arg: string)
    ensures FlagName(f, w) == FlagName(f, Masked(w, f.mask))
    ensures FlagAllows(f, w, arg) == FlagAllows(f, Masked(w, f.mask), arg)
  {
    MaskedTwice(w, f.mask);
  }

  /** With well-formed selectors, the value of a name decodes back to that name. */
  lemma FlagNameOfValue(f: FlagFuse, arg: string)
    requires FlagWellFormed(f) && Contains(f.flags, arg)
    ensures FlagName(f, Find(f.flags, arg).value) == arg
  {
    var v := Find(f.flags, arg).value;
    var i :| 0 <= i < |f.flags| && f.flags[i] == (arg, v);
    FlagEntryDecodes(f, i);
  }

  /** With well-formed selectors, each entry's value decodes to its own name. */
  lemma FlagEntryDecodes(f: FlagFuse, i: int)
    requires FlagWellFormed(f) && 0 <= i < |f.flags|
    ensures FlagName(f, f.flags[i].1) == f.flags[i].0
  {
    var v := f.flags[i].1;
    WithinMask(v, f.mask);
    forall j | 0 <= j < i
      ensures f.flags[j].1 != v
    {
      assert f.flags[j].1 != f.flags[i].1;
    }
    NameOfFirst(f.flags, v, i);
  }

  /** `set` overwrites: afterwards the word holds exactly the value of the name, whatever it held before. */
  lemma FlagSetOverwrites(img: seq<Byte>, f: FlagFuse, arg: string)
    requires FlagSetSpec(img, f, arg).result.Ok?
    ensures Fits(|img|, Position(f.offset)) && Contains(f.flags, arg)
    ensures WordAt(FlagSetSpec(img, f, arg).image, Position(f.offset)) == Find(f.flags, arg).value
    ensures FlagSetSpec(img, f, arg).writes == [Position(f.offset)]
  {}

  /** For well-formed selectors, `get` after a successful `set` returns the name that was set. */
  lemma FlagSetThenGet(img: seq<Byte>, f: FlagFuse, arg: string)
    requires FlagWellFormed(f) && FlagSetSpec(img, f, arg).result.Ok?
    ensures FlagGetSpec(FlagSetSpec(img, f, arg).image, f) == Ok(arg)
  {
    FlagSetOverwrites(img, f, arg);
    FlagNameOfValue(f, arg);
  }

  // ----------------------------------------------------------------- MACFuse

  /** `MACFuse::valid_arg`: false unless twelve characters long; a failing scan throws. */
  function MacValidArg(arg: string): (r: Result<bool, Error>)
    ensures r == Ok(false) <==> |arg| != 12
    ensures r == Ok(true) <==> |arg| == 12 && AllHex(arg)
    ensures r.Err? ==> r.error == ScanFailure
  {
    if |arg| != 12 then Ok(false)
    else if Scan(arg).None? then Err(ScanFailure)
    else Ok(true)
  }

  /** `MACFuse::get`: reads the word at `offset1`, then the word at `offset2`. */
  function MacGetSpec(img: seq<Byte>, m: MacFuse): Result<string, Error>
  {
    match ReadAt(img, Position(m.offset1))
    case Err(e) => Err(e)
    case Ok(mac0) =>
      match ReadAt(img, Position(m.offset2))
      case Err(e) => Err(e)
      case Ok(mac1) => Ok(Text(mac0, mac1))
  }

  /** `MACFuse::is_fuseable`: the printed address is all zeros; the argument plays no part. */
  function MacFuseableSpec(img: seq<Byte>, m: MacFuse, arg: string): Result<bool, Error>
  {
    match MacGetSpec(img, m)
    case Err(e) => Err(e)
    case Ok(s) => Ok(s == "000000000000")
  }

  /** `MACFuse::set`: scans, writes the first word, then the second; a failure stops it there. */
  function MacSetSpec(img: seq<Byte>, m: MacFuse, arg: string): Effect
  {
    match Scan(arg)
    case None => Effect(Err(ScanFailure), img, [])
    case Some(o) =>
      var first := Put(img, Position(m.offset1), Layout(o).0);
      if first.result.Err? then first
      else
        var second := Put(first.image, Position(m.offset2), Layout(o).1);
        Effect(second.result, second.image, first.writes + second.writes)
  }

  method MacGet(store: Image, m: MacFuse) returns (r: Result<string, Error>)
    ensures r == MacGetSpec(store.bytes, m)
  {
    var mac0 := store.Read(Position(m.offset1));
    if mac0.Err? {
      return Err(mac0.error);
    }
    var mac1 := store.Read(Position(m.offset2));
    if mac1.Err? {
      return Err(mac1.error);
    }
    return Ok(Text(mac0.value, mac1.value));
  }

  method MacIsFuseable(store: Image, m: MacFuse, arg: string) returns (r: Result<bool, Error>)
    ensures r == MacFuseableSpec(store.bytes, m, arg)
  {
    var s := MacGet(store, m);
    if s.Err? {
      return Err(s.error);
    }
    return Ok(s.value == "000000000000");
  }

  method MacSet(store: Image, m: MacFuse, arg: string) returns (r: Result<(), Error>)
    modifies store
    ensures var e := MacSetSpec(old(store.bytes), m, arg);
      r == e.result && store.bytes == e.image && store.trace == old(store.trace) + e.writes
  {
    var o := Scan(arg);
    if o.None? {
      return Err(ScanFailure);
    }
    var words := Layout(o.value);
    r := store.Write(Position(m.offset1), words.0);
    if r.Err? {
      return;
    }
    r := store.Write(Position(m.offset2), words.1);
  }

  /** The two fuse words do not overlap and both lie inside the image. */
  predicate MacPlaced(img: seq<Byte>, m: MacFuse)
  {
    Fits(|img|, Position(m.offset1)) && Fits(|img|, Position(m.offset2))
    && Disjoint(Position(m.offset1), Position(m.offset2))
  }

  /**
   * Where `set` puts the octets: the first word holds octets 2..5 with octet 5 least significant,
   * the second holds octet 0 above octet 1 and zero in its upper half.
   */
  lemma MacSetLayout(img: seq<Byte>, m: MacFuse, arg: string)
    requires MacPlaced(img, m) && Scan(arg).Some?
    ensures var e := MacSetSpec(img, m, arg); var o := Scan(arg).value;
      e.result.Ok? && e.writes == [Position(m.offset1), Position(m.offset2)]
      && WordAt(e.image, Position(m.offset1)) == (o[2] as Word << 24) | (o[3] as Word << 16) | (o[4] as Word << 8) | o[5] as Word
      && WordAt(e.image, Position(m.offset2)) == (o[0] as Word << 8) | o[1] as Word
  {
    var o := Scan(arg).value;
    var p1, p2 := Position(m.offset1), Position(m.offset2);
    var img1 := WriteAt(img, p1, Layout(o).0);
    ReadOtherWrite(img1, p2, p1, Layout(o).1);
    LayoutWords(o);
  }

  /** `get` after `set` prints the argument in upper case. */
  lemma MacSetThenGet(img: seq<Byte>, m: MacFuse, arg: string)
    requires MacPlaced(img, m) && MacValidArg(arg) == Ok(true)
    ensures MacGetSpec(MacSetSpec(img, m, arg).image, m) == Ok(Upper(arg))
  {
    var o := Scan(arg).value;
    var p1, p2 := Position(m.offset1), Position(m.offset2);
    var img1 := WriteAt(img, p1, Layout(o).0);
    var img2 := WriteAt(img1, p2, Layout(o).1);
    ReadOtherWrite(img1, p2, p1, Layout(o).1);
    assert ReadAt(img2, p1) == Ok(Layout(o).0);
    assert ReadAt(img2, p2) == Ok(Layout(o).1);
    UnlayoutLayout(o);
    ScanThenFormat(arg);
  }

  /** `is_fuseable` holds exactly when all six octets read as zero, whatever the argument. */
  lemma MacFuseableIffBlank(img: seq<Byte>, m: MacFuse, arg: string, other: string)
    requires Fits(|img|, Position(m.offset1)) && Fits(|img|, Position(m.offset2))
    ensures MacFuseableSpec(img, m, arg) == MacFuseableSpec(img, m, other)
    ensures MacFuseableSpec(img, m, arg) == Ok(
      WordAt(img, Position(m.offset1)) == 0 && WordAt(img, Position(m.offset2)) & 0xffff == 0)
  {
    var mac0 := img[Position(m.offset1)..Position(m.offset1) + 4];
    var mac1 := img[Position(m.offset2)..Position(m.offset2) + 4];
    assert (Decode(mac0) == 0) <==> mac0 == [0, 0, 0, 0] by {
      EncodeDecode(mac0);
    }
    assert (Decode(mac1) & 0xffff == 0) <==> (mac1[0] == 0 && mac1[1] == 0);
  }

  // ----------------------------------------------- IFuse: dispatch on the kind

  /** `valid_arg` of the fuse `make_fuse` returned. */
  function ValidArg(f: Fuse, arg: string): Result<bool, Error>
  {
    match f
    case Flag(ff) => Ok(FlagValidArg(ff, arg))
    case Mac(_) => MacValidArg(arg)
    case _ => Err(NotModelled)
  }

  function GetSpec(img: seq<Byte>, f: Fuse): Result<string, Error>
  {
    match f
    case Flag(ff) => FlagGetSpec(img, ff)
    case Mac(m) => MacGetSpec(img, m)
    case _ => Err(NotModelled)
  }

  function FuseableSpec(img: seq<Byte>, f: Fuse, arg: string): Result<bool, Error>
  {
    match f
    case Flag(ff) => FlagFuseableSpec(img, ff, arg)
    case Mac(m) => MacFuseableSpec(img, m, arg)
    case _ => Err(NotModelled)
  }

  function SetSpec(img: seq<Byte>, f: Fuse, arg: string): Effect
  {
    match f
    case Flag(ff) => FlagSetSpec(img, ff, arg)
    case Mac(m) => MacSetSpec(img, m, arg)
    case _ => Effect(Err(NotModelled), img, [])
  }

  method Get(store: Image, f: Fuse) returns (r: Result<string, Error>)
    ensures r == GetSpec(store.bytes, f)
  {
    match f
    case Flag(ff) => r := FlagGet(store, ff);
    case Mac(m) => r := MacGet(store, m);
    case _ => r := Err(NotModelled);
  }

  method IsFuseable(store: Image, f: Fuse, arg: string) returns (r: Result<bool, Error>)
    ensures r == FuseableSpec(store.bytes, f, arg)
  {
    match f
    case Flag(ff) => r := FlagIsFuseable(store, ff, arg);
    case Mac(m) => r := MacIsFuseable(store, m, arg);
    case _ => r := Err(NotModelled);
  }

  method Set(store: Image, f: Fuse, arg: string) returns (r: Result<(), Error>)
    modifies store
    ensures var e := SetSpec(old(store.bytes), f, arg);
      r == e.result && store.bytes == e.image && store.trace == old(store.trace) + e.writes
  {
    match f
    case Flag(ff) => r := FlagSet(store, ff, arg);
    case Mac(m) => r := MacSet(store, m, arg);
    case _ => r := Err(NotModelled);
  }

  /** The byte positions of the fuse words a fuse reads and writes. */
  function Windows(f: Fuse): seq<int>
  {
    match f
    case Flag(ff) => [Position(ff.offset)]
    case Mac(m) => [Position(m.offset1), Position(m.offset2)]
    case _ => []
  }

  /** Byte `i` lies in one of the fuse's words. */
  predicate Touches(f: Fuse, i: int)
  {
    match f
    case Flag(ff) => Position(ff.offset) <= i < Position(ff.offset) + 4
    case Mac(m) =>
      (Position(m.offset1) <= i < Position(m.offset1) + 4)
      || (Position(m.offset2) <= i < Position(m.offset2) + 4)
    case _ => false
  }

  /** `set` writes only the fuse's own words and leaves every other byte of the image as it was. */
  lemma SetFrame(img: seq<Byte>, f: Fuse, arg: string)
    ensures var e := SetSpec(img, f, arg);
      |e.image| == |img| && (forall p :: p in e.writes ==> p in Windows(f))
      && forall i :: 0 <= i < |img| && !Touches(f, i) ==> e.image[i] == img[i]
  {
    match f
    case Flag(ff) =>
    case Mac(m) => MacSetFrame(img, m, arg);
    case _ =>
  }

  lemma MacSetFrame(img: seq<Byte>, m: MacFuse, arg: string)
    ensures var e := MacSetSpec(img, m, arg);
      |e.image| == |img| && (forall p :: p in e.writes ==> p == Position(m.offset1) || p == Position(m.offset2))
      && forall i :: 0 <= i < |img| && !Touches(Mac(m), i) ==> e.image[i] == img[i]
  {
    match Scan(arg)
    case None =>
    case Some(o) =>
      var first := Put(img, Position(m.offset1), Layout(o).0);
      var second := Put(first.image, Position(m.offset2), Layout(o).1);
  }

  /** For well-formed flag fuses and for addresses in upper case, `get` after a successful `set` returns the argument. */
  predicate RoundTrips(img: seq<Byte>, f: Fuse, arg: string)
  {
    match f
    case Flag(ff) => FlagWellFormed(ff)
    case Mac(m) => MacPlaced(img, m) && MacValidArg(arg) == Ok(true) && Upper(arg) == arg
    case _ => false
  }

  lemma SetThenGet(img: seq<Byte>, f: Fuse, arg: string)
    requires RoundTrips(img, f, arg) && SetSpec(img, f, arg).result.Ok?
    ensures GetSpec(SetSpec(img, f, arg).image, f) == Ok(arg)
  {
    match f
    case Flag(ff) => FlagSetThenGet(img, ff, arg);
    case Mac(m) => MacSetThenGet(img, m, arg);
  }

  // ------------------------------------------ examples from test-flash-fuse.cpp

  /** A zero word with flags {A: 0x8} and mask 0x8 reads as "UNKNOWN"; 0x8 reads as "A"; "A" is valid and "B" is not. */
  lemma SingleFlagExamples()
    ensures var f := FlagFuse(0, 0x8, FromList([("A", 0x8)]));
      FlagName(f, 0) == "UNKNOWN" && FlagName(f, 0x8) == "A"
      && FlagValidArg(f, "A") && !FlagValidArg(f, "B")
  {
    var init: Entries<Word> := [("A", 0x8)];
    var flags := FromList(init);
    FromListEntries(init);
    FromListFind(init, "A");
    FromListFind(init, "B");
    assert forall i :: 0 <= i < |flags| ==> flags[i] == ("A", 0x8);
    NameOfNone(flags, 0);
    NameOfFirst(flags, 0x8, 0);
  }

  /** The example table: bit1 0x10, bit2 0x20, both 0x30. */
  const ExampleFlags: Entries<Word> := [("bit1", 0x10), ("bit2", 0x20), ("both", 0x30)]

  /** Looking names up in the map built from the example table. */
  lemma ExampleFlagsFind()
    ensures Find(FromList(ExampleFlags), "bit2") == Some(0x20)
    ensures Find(FromList(ExampleFlags), "both") == Some(0x30)
  {
    ExampleFind("bit2");
    ExampleFind("both");
    FindLaterKeys(ExampleFlags[0], ExampleFlags[1], ExampleFlags[2]);
  }

  /** In a three-entry list with distinct keys, the second and third keys find their values. */
  lemma FindLaterKeys<V>(a: (string, V), b: (string, V), c: (string, V))
    requires a.0 != b.0 && a.0 != c.0 && b.0 != c.0
    ensures Find([a, b, c], b.0) == Some(b.1)
    ensures Find([a, b, c], c.0) == Some(c.1)
  {
    assert [a] + [b, c] == [a, b, c] && [b] + [c] == [b, c] && [c] + [] == [c];
    FindCons(a, [b, c], b.0);
    FindCons(b, [c], b.0);
    FindCons(a, [b, c], c.0);
    FindCons(b, [c], c.0);
    FindCons(c, [], c.0);
  }

  lemma ExampleFind(k: string)
    ensures Find(FromList(ExampleFlags), k) == Find(ExampleFlags, k)
  {
    FromListFind(ExampleFlags, k);
  }

  /** With mask 0x30 and bit2 0x20, both 0x30: what `is_fuseable` allows and what it refuses. */
  lemma FuseableExamples(flags: Entries<Word>)
    requires Find(flags, "bit2") == Some(0x20) && Find(flags, "both") == Some(0x30)
    ensures FlagAllows(FlagFuse(8, 0x30, flags), 0, "bit2") == Ok(true)
    ensures FlagAllows(FlagFuse(8, 0x30, flags), 0x10, "both") == Ok(true)
    ensures FlagAllows(FlagFuse(8, 0x30, flags), 0x10, "bit2") == Ok(false)
    ensures FlagAllows(FlagFuse(8, 0x30, flags), 0x30, "bit2") == Ok(false)
  {
    assert Masked(0, 0x30) == 0 && Masked(0x10, 0x30) == 0x10 && Masked(0x30, 0x30) == 0x30;
  }
}
