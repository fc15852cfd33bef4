/**
 * flash-fuse-imx8mm.cpp: the standalone i.MX8M Mini tool. It has its own fuse
 * classes and its own `main`, and reads and writes with `pread`/`pwrite` at
 * byte position `offset` itself (no scaling by four).
 *
 * The base `IFuse` is a 1/0 fuse: "1" when every bit of its mask is set.
 * `FuseMAC` keeps the address in the words at 0x90 and 0x94 with the byte
 * placement of `MACFuse` (MacCodec.Layout).
 */
module Imx8mm {
  import opened Wrappers
  import opened Bits
  import opened Nvmem
  import opened HexText
  import opened MacCodec
  import opened FuseMain
  import CommonFuse

  /** The fuse objects `make_fuse` can return. */
  datatype Fuse =
    | OneZero(offset: int, mask: Word)   // IFuse(path, fuse_offset, fuse_mask)
    | FuseMac                            // FuseMAC, at mac0_offset and mac1_offset

  const Mac0Offset: int := 0x90
  const Mac1Offset: int := 0x94

  /** `FuseLockMAC`: bit 14 of the lock word. */
  const LockMac: Fuse := OneZero(0x0, 0x4000)

  /** `make_fuse`. */
  function MakeFuse(name: string): Option<Fuse>
  {
    if name == "MAC" then Some(FuseMac)
    else if name == "LOCK_MAC" then Some(LockMac)
    else None
  }

  /** `valid_arg`: "1" or "0"; for the address, twelve characters, and a failing scan throws. */
  function ValidArg(f: Fuse, arg: string): Result<bool, Error>
  {
    match f
    case OneZero(_, _) => Ok(arg == "1" || arg == "0")
    case FuseMac => CommonFuse.MacValidArg(arg)
  }

  /** What `IFuse::get` prints for fuse word `w`. */
  function OneZeroText(w: Word, mask: Word): (s: string)
    ensures s == "1" <==> forall k: Index :: HasBit(mask, k) ==> HasBit(w, k)
    ensures s == "1" || s == "0"
  {
    CoversBits(w, mask);
    if Masked(w, mask) == mask then "1" else "0"
  }

  /** `(w & mask) == mask` says that every bit of the mask is set in `w`. */
  lemma CoversBits(w: Word, mask: Word)
    ensures Masked(w, mask) == mask <==> forall k: Index :: HasBit(mask, k) ==> HasBit(w, k)
  {
    assert Masked(w, mask) == mask <==> Within(mask, w);
    WithinBits(mask, w);
  }

  function GetSpec(img: seq<Byte>, f: Fuse): Result<string, Error>
  {
    match f
    case OneZero(offset, mask) =>
      (match ReadAt(img, offset)
       case Err(e) => Err(e)
       case Ok(b) => Ok(OneZeroText(Decode(b), mask)))
    case FuseMac =>
      (match ReadAt(img, Mac0Offset)
       case Err(e) => Err(e)
       case Ok(mac0) =>
         match ReadAt(img, Mac1Offset)
         case Err(e) => Err(e)
         case Ok(mac1) => Ok(Text(mac0, mac1)))
  }

  /** `is_fused`: `get()` is "1"; for the address, some printed digit is not '0'. */
  function IsFusedSpec(img: seq<Byte>, f: Fuse): Result<bool, Error>
  {
    match GetSpec(img, f)
    case Err(e) => Err(e)
    case Ok(s) => Ok(if f.OneZero? then s == "1" else s != "000000000000")
  }

  /** The word `IFuse::set` writes: the mask for "1", zero for anything else. */
  function OneZeroWord(mask: Word, arg: string): (v: Word)
    ensures Within(v, mask)
    ensures mask != 0 && (arg == "1" || arg == "0") ==> OneZeroText(v, mask) == arg
  {
    if arg == "1" then mask else 0
  }

  /** `set`: one whole-word write for the 1/0 fuse; scan, then 0x90, then 0x94 for the address. */
  function SetSpec(img: seq<Byte>, f: Fuse, arg: string): Effect
  {
    match f
    case OneZero(offset, mask) => Put(img, offset, Encode(OneZeroWord(mask, arg)))
    case FuseMac =>
      match Scan(arg)
      case None => Effect(Err(ScanFailure), img, [])
      case Some(o) =>
        var first := Put(img, Mac0Offset, Layout(o).0);
        if first.result.Err? then first
        else
          var second := Put(first.image, Mac1Offset, Layout(o).1);
          Effect(second.result, second.image, first.writes + second.writes)
  }

  method Get(store: Image, f: Fuse) returns (r: Result<string, Error>)
    ensures r == GetSpec(store.bytes, f)
  {
    match f
    case OneZero(offset, mask) =>
      var b := store.Read(offset);
      if b.Err? {
        return Err(b.error);
      }
      var val := Decode(b.value);
      return Ok(if Masked(val, mask) == mask then "1" else "0");
    case FuseMac =>
      var mac0 := store.Read(Mac0Offset);
      if mac0.Err? {
        return Err(mac0.error);
      }
      var mac1 := store.Read(Mac1Offset);
      if mac1.Err? {
        return Err(mac1.error);
      }
      return Ok(Text(mac0.value, mac1.value));
  }

  method IsFused(store: Image, f: Fuse) returns (r: Result<bool, Error>)
    ensures r == IsFusedSpec(store.bytes, f)
  {
    var s := Get(store, f);
    if s.Err? {
      return Err(s.error);
    }
    if f.OneZero? {
      return Ok(s.value == "1");
    }
    return Ok(s.value != "000000000000");
  }

  method Set(store: Image, f: Fuse, arg: string) returns (r: Result<(), Error>)
    modifies store
    ensures var e := SetSpec(old(store.bytes), f, arg);
      r == e.result && store.bytes == e.image && store.trace == old(store.trace) + e.writes
  {
    match f
    case OneZero(offset, mask) =>
      var val := if arg == "1" then mask else 0;
      r := store.Write(offset, Encode(val));
    case FuseMac =>
      var o := Scan(arg);
      if o.None? {
        return Err(ScanFailure);
      }
      var words := Layout(o.value);
      r := store.Write(Mac0Offset, words.0);
      if r.Err? {
        return;
      }
      r := store.Write(Mac1Offset, words.1);
  }

  // ------------------------------------------------------- the 1/0 fuse

  /** `set` overwrites the word at byte position `offset` with the mask for "1" and with zero otherwise, and nothing else. */
  lemma OneZeroSetOverwrites(img: seq<Byte>, offset: int, mask: Word, arg: string)
    requires Fits(|img|, offset)
    ensures var e := SetSpec(img, OneZero(offset, mask), arg);
      e.result.Ok? && e.writes == [offset] && |e.image| == |img|
      && WordAt(e.image, offset) == (if arg == "1" then mask else 0)
      && forall i :: 0 <= i < |img| && !(offset <= i < offset + 4) ==> e.image[i] == img[i]
  {}

  /** With a non-zero mask, `get` after `set` of "1" or "0" reads the argument back. */
  lemma OneZeroSetThenGet(img: seq<Byte>, offset: int, mask: Word, arg: string)
    requires Fits(|img|, offset) && mask != 0 && (arg == "1" || arg == "0")
    ensures GetSpec(SetSpec(img, OneZero(offset, mask), arg).image, OneZero(offset, mask)) == Ok(arg)
  {
    var e := SetSpec(img, OneZero(offset, mask), arg);
    ReadOwnWrite(img, offset, Encode(OneZeroWord(mask, arg)));
    MaskedWithin(mask, mask);
    assert Masked(0, mask) == 0;
  }

  // ------------------------------------------------------------ FuseMAC

  /**
   * `FuseMAC` is `MACFuse` (flash-fuse-common.cpp) at fuse words 0x24 and 0x25: the
   * same reads, the same writes, the same text, at byte positions 0x90 and 0x94.
   */
  lemma FuseMacIsMacFuse(img: seq<Byte>, arg: string)
    ensures CommonFuse.Position(0x24) == Mac0Offset && CommonFuse.Position(0x25) == Mac1Offset
    ensures GetSpec(img, FuseMac) == CommonFuse.MacGetSpec(img, CommonFuse.MacFuse(0x24, 0x25))
    ensures SetSpec(img, FuseMac, arg) == CommonFuse.MacSetSpec(img, CommonFuse.MacFuse(0x24, 0x25), arg)
  {}

  /** `get` after `set` of a valid address prints it in upper case. */
  lemma MacSetThenGet(img: seq<Byte>, arg: string)
    requires Fits(|img|, Mac1Offset) && ValidArg(FuseMac, arg) == Ok(true)
    ensures GetSpec(SetSpec(img, FuseMac, arg).image, FuseMac) == Ok(Upper(arg))
  {
    FuseMacIsMacFuse(img, arg);
    FuseMacIsMacFuse(SetSpec(img, FuseMac, arg).image, arg);
    CommonFuse.MacSetThenGet(img, CommonFuse.MacFuse(0x24, 0x25), arg);
  }

  /** `is_fused` holds exactly when some octet of the two words is non-zero. */
  lemma MacIsFusedIff(img: seq<Byte>)
    requires Fits(|img|, Mac0Offset) && Fits(|img|, Mac1Offset)
    ensures var mac0, mac1 := img[Mac0Offset..Mac0Offset + 4], img[Mac1Offset..Mac1Offset + 4];
      IsFusedSpec(img, FuseMac) == Ok(!(mac0 == [0, 0, 0, 0] && mac1[0] == 0 && mac1[1] == 0))
  {}

  lemma DigitPairs()
    ensures Hex2(0x00) == "00" && Hex2(0x11) == "11" && Hex2(0x22) == "22"
    ensures Hex2(0x33) == "33" && Hex2(0x44) == "44" && Hex2(0x55) == "55" && Hex2(0xFF) == "FF"
  {}

  lemma JoinedPairs()
    ensures "00" + ("11" + ("22" + ("33" + ("44" + "55")))) == "001122334455"
    ensures "FF" + ("11" + ("22" + ("33" + ("44" + "55")))) == "FF1122334455"
  {}

  /** The text of the two example addresses of test-imx8mm.py. */
  lemma FormatExamples()
    ensures Format([0x00, 0x11, 0x22, 0x33, 0x44, 0x55]) == "001122334455"
    ensures Format([0xFF, 0x11, 0x22, 0x33, 0x44, 0x55]) == "FF1122334455"
  {
    DigitPairs();
    JoinedPairs();
    FormatOctets([0x00, 0x11, 0x22, 0x33, 0x44, 0x55]);
    FormatOctets([0xFF, 0x11, 0x22, 0x33, 0x44, 0x55]);
  }

  /** The octets "001122334455" scans to. */
  lemma ScanExample()
    ensures Scan("001122334455") == Some([0x00, 0x11, 0x22, 0x33, 0x44, 0x55])
  {
    FormatExamples();
    FormatThenScan([0x00, 0x11, 0x22, 0x33, 0x44, 0x55]);
  }

  /** `set("001122334455")` puts bytes 55 44 33 22 at 0x90 and 11 00 00 00 at 0x94. */
  lemma MacSetExample(img: seq<Byte>)
    requires Fits(|img|, Mac1Offset)
    ensures var e := SetSpec(img, FuseMac, "001122334455");
      e.result.Ok? && e.writes == [0x90, 0x94]
      && e.image[0x90..0x94] == [0x55, 0x44, 0x33, 0x22] && e.image[0x94..0x98] == [0x11, 0x00, 0x00, 0x00]
  {
    ScanExample();
    var o: Octets := [0x00, 0x11, 0x22, 0x33, 0x44, 0x55];
    var img1 := WriteAt(img, 0x90, Layout(o).0);
    ReadOtherWrite(img1, 0x94, 0x90, Layout(o).1);
  }

  /** Bytes 55 44 33 22 at 0x90 and 11 FF 00 00 at 0x94 print as "FF1122334455": byte 1 of 0x94 is the first octet. */
  lemma MacGetExample(img: seq<Byte>)
    requires Fits(|img|, Mac1Offset)
    requires img[0x90..0x94] == [0x55, 0x44, 0x33, 0x22] && img[0x94..0x98] == [0x11, 0xFF, 0x00, 0x00]
    ensures GetSpec(img, FuseMac) == Ok("FF1122334455")
  {
    assert Unlayout(img[0x90..0x94], img[0x94..0x98]) == [0xFF, 0x11, 0x22, 0x33, 0x44, 0x55];
    FormatExamples();
  }

  // --------------------------------------------------------------- main

  /** The dispatch of `main`, after the command line has been parsed. */
  function MainSpec(img: seq<Byte>, req: Request): Run
  {
    if !req.verify && !req.commit && !req.get then Stop(img, Exit(1))
    else if req.fuseName == "" then Stop(img, Exit(1))
    else match MakeFuse(req.fuseName)
      case None => Stop(img, Exit(1))
      case Some(f) =>
        if req.get then
          match GetSpec(img, f)
          case Err(e) => Stop(img, Aborted(e))
          case Ok(v) => Stop(img, Shown(v))
        else match ValidArg(f, req.fuseArg)
          case Err(e) => Stop(img, Aborted(e))
          case Ok(false) => Stop(img, Exit(1))
          case Ok(true) =>
            match GetSpec(img, f)
            case Err(e) => Stop(img, Aborted(e))
            case Ok(fused) =>
              if fused == req.fuseArg then Stop(img, Exit(0))
              else if req.verify then Stop(img, Exit(1))
              else if req.commit then
                match IsFusedSpec(img, f)
                case Err(e) => Stop(img, Aborted(e))
                case Ok(true) => Stop(img, Exit(1))
                case Ok(false) =>
                  var e := SetSpec(img, f, req.fuseArg);
                  Run(if e.result.Ok? then Exit(0) else Aborted(e.result.error), e.image, e.writes)
              else
                // "no operation selected": the first check already returned.
                assert false; Stop(img, Exit(1))
  }

  method RunMain(store: Image, req: Request) returns (o: Outcome)
    modifies store
    ensures var r := MainSpec(old(store.bytes), req);
      o == r.outcome && store.bytes == r.image && store.trace == old(store.trace) + r.writes
  {
    if !req.verify && !req.commit && !req.get {
      return Exit(1);
    }
    if req.fuseName == "" {
      return Exit(1);
    }
    var fuse := MakeFuse(req.fuseName);
    if fuse.None? {
      return Exit(1);
    }
    var f := fuse.value;
    if req.get {
      var v := Get(store, f);
      if v.Err? {
        return Aborted(v.error);
      }
      return Shown(v.value);
    }
    var valid := ValidArg(f, req.fuseArg);
    if valid.Err? {
      return Aborted(valid.error);
    }
    if !valid.value {
      return Exit(1);
    }
    var fused := Get(store, f);
    if fused.Err? {
      return Aborted(fused.error);
    }
    if fused.value == req.fuseArg {
      return Exit(0);
    }
    if req.verify {
      return Exit(1);
    }
    if req.commit {
      var already := IsFused(store, f);
      if already.Err? {
        // `get` just read the same words.
        assert false;
        return Exit(1);
      }
      if already.value {
        return Exit(1);
      }
      var r := Set(store, f, req.fuseArg);
      if r.Err? {
        return Aborted(r.error);
      }
      return Exit(0);
    }
    assert false;
    return Exit(1);
  }

  // ---------------------------------------------------------- the promises

  /** `--get` prints `get()` and returns 0 whatever else is asked, and never writes. */
  lemma GetOnlyReads(img: seq<Byte>, req: Request, f: Fuse)
    requires req.get && req.fuseName != "" && MakeFuse(req.fuseName) == Some(f)
    ensures var r := MainSpec(img, req);
      r.image == img && r.writes == []
      && r.outcome == match GetSpec(img, f) case Ok(v) => Shown(v) case Err(e) => Aborted(e)
  {}

  /** No mode, no fuse name, or a name other than MAC and LOCK_MAC: 1, without a look at the image. */
  lemma EarlyExits(img: seq<Byte>, req: Request)
    requires (!req.verify && !req.commit && !req.get) || (req.fuseName != "MAC" && req.fuseName != "LOCK_MAC")
    ensures MainSpec(img, req) == Run(Exit(1), img, [])
  {}

  /** An argument `valid_arg` rejects: 1 and no write. */
  lemma InvalidArgNoWrite(img: seq<Byte>, req: Request, f: Fuse)
    requires (req.verify || req.commit) && !req.get && MakeFuse(req.fuseName) == Some(f)
    requires ValidArg(f, req.fuseArg) == Ok(false)
    ensures MainSpec(img, req) == Run(Exit(1), img, [])
  {}

  /**
   * `LOCK_MAC` takes and prints only "1" and "0": the selectors `WP` and `NONE`
   * are rejected, so committing `WP` exits 1 without a write, and `--get` never
   * prints either of them.
   */
  lemma LockMacSelectors(img: seq<Byte>, verify: bool)
    ensures ValidArg(LockMac, "WP") == Ok(false) && ValidArg(LockMac, "NONE") == Ok(false)
    ensures MainSpec(img, Request("LOCK_MAC", "WP", verify, true, false)) == Run(Exit(1), img, [])
    ensures GetSpec(img, LockMac) != Ok("NONE") && GetSpec(img, LockMac) != Ok("WP")
  {
    InvalidArgNoWrite(img, Request("LOCK_MAC", "WP", verify, true, false), LockMac);
  }

  /** `get` already equal to the argument: 0 and no write. */
  lemma AlreadyFusedNoWrite(img: seq<Byte>, req: Request, f: Fuse)
    requires (req.verify || req.commit) && !req.get && MakeFuse(req.fuseName) == Some(f)
    requires ValidArg(f, req.fuseArg) == Ok(true) && GetSpec(img, f) == Ok(req.fuseArg)
    ensures MainSpec(img, req) == Run(Exit(0), img, [])
  {}

  /** `--verify` with a different fused value: 1 and no write, even with `--commit`. */
  lemma VerifyNoWrite(img: seq<Byte>, req: Request, f: Fuse, fused: string)
    requires req.verify && !req.get && MakeFuse(req.fuseName) == Some(f)
    requires ValidArg(f, req.fuseArg) == Ok(true) && GetSpec(img, f) == Ok(fused) && fused != req.fuseArg
    ensures MainSpec(img, req) == Run(Exit(1), img, [])
  {}

  /** A commit onto a fuse that `is_fused` reports burnt: 1 and no write. */
  lemma FusedRefused(img: seq<Byte>, req: Request, f: Fuse, fused: string)
    requires req.commit && !req.verify && !req.get && MakeFuse(req.fuseName) == Some(f)
    requires ValidArg(f, req.fuseArg) == Ok(true) && GetSpec(img, f) == Ok(fused) && fused != req.fuseArg
    requires IsFusedSpec(img, f) == Ok(true)
    ensures MainSpec(img, req) == Run(Exit(1), img, [])
  {}

  /** A run writes exactly when it commits a valid argument, different from `get`, onto an unfused fuse; it is then one `set`. */
  lemma WritesIffSet(img: seq<Byte>, req: Request)
    ensures var r := MainSpec(img, req); var f := MakeFuse(req.fuseName);
      r.writes != [] <==>
        req.commit && !req.verify && !req.get && f.Some?
        && ValidArg(f.value, req.fuseArg) == Ok(true)
        && GetSpec(img, f.value).Ok? && GetSpec(img, f.value).value != req.fuseArg
        && IsFusedSpec(img, f.value) == Ok(false)
    ensures var r := MainSpec(img, req); var f := MakeFuse(req.fuseName);
      r.writes != [] ==> var e := SetSpec(img, f.value, req.fuseArg);
        r == Run(if e.result.Ok? then Exit(0) else Aborted(e.result.error), e.image, e.writes)
  {
    var f := MakeFuse(req.fuseName);
    if req.commit && !req.verify && !req.get && f.Some? && ValidArg(f.value, req.fuseArg) == Ok(true) {
      if f.value.FuseMac? {
        CommonFuse.MacSetFrame(img, CommonFuse.MacFuse(0x24, 0x25), req.fuseArg);
        FuseMacIsMacFuse(img, req.fuseArg);
      }
    }
  }

  /** LOCK_MAC is only ever set to "1": a run that writes it burns exactly bit 14. */
  lemma NeverSetsZero(img: seq<Byte>, req: Request)
    requires req.fuseName == "LOCK_MAC" && MainSpec(img, req).writes != []
    ensures req.fuseArg == "1"
    ensures MainSpec(img, req).outcome == Exit(0) ==> WordAt(MainSpec(img, req).image, 0x0) == 0x4000
  {
    WritesIffSet(img, req);
  }

  /** A run changes no byte outside the fuse's words: bytes 0x0..0x3 for LOCK_MAC, 0x90..0x97 for MAC. */
  lemma RunFrame(img: seq<Byte>, req: Request)
    ensures var r := MainSpec(img, req);
      |r.image| == |img|
      && forall i :: 0 <= i < |img| && r.image[i] != img[i] ==>
        (req.fuseName == "LOCK_MAC" && 0 <= i < 4) || (req.fuseName == "MAC" && 0x90 <= i < 0x98)
  {
    WritesIffSet(img, req);
    var f := MakeFuse(req.fuseName);
    if f == Some(FuseMac) {
      CommonFuse.MacSetFrame(img, CommonFuse.MacFuse(0x24, 0x25), req.fuseArg);
      FuseMacIsMacFuse(img, req.fuseArg);
    }
  }

  /** A commit that returned 0 leaves an image on which the same commit returns 0 without writing (for MAC, an upper-case address). */
  lemma CommitIdempotent(img: seq<Byte>, req: Request)
    requires req.commit && MainSpec(img, req).outcome == Exit(0)
    requires req.fuseName == "MAC" ==> Upper(req.fuseArg) == req.fuseArg
    ensures var next := MainSpec(img, req).image;
      MainSpec(next, req) == Run(Exit(0), next, [])
  {
    WritesIffSet(img, req);
    var r := MainSpec(img, req);
    if r.writes != [] {
      var f := MakeFuse(req.fuseName).value;
      match f
      case OneZero(offset, mask) =>
        OneZeroSetThenGet(img, offset, mask, req.fuseArg);
      case FuseMac =>
        MacSetThenGet(img, req.fuseArg);
    }
  }
}
