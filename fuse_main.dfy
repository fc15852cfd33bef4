/**
 * The get / verify / commit dispatch of `main` in flash-fuse-main.cpp, after the
 * command line has been parsed, for the SoC file it is linked with.
 *
 * A run reads the fuse, compares, and writes at most once. `MainSpec` is what a
 * run does to an image; `RunMain` is the dispatch as a method on an `Image`,
 * proved equal to it; the lemmas state the protocol's promises about `MainSpec`.
 * An exception that escapes `main` ends the process through `std::terminate`:
 * that is the `Aborted` outcome.
 */
module FuseMain {
  import opened Wrappers
  import opened Nvmem
  import opened MacCodec
  import opened CommonFuse
  import Bits
  import StdMap
  import FuseTable
  import Imx8mp
  import Imx8mn
  import Imx6dl

  /** The SoC file the tool is built with. */
  datatype Soc = Mx8mp | Mx8mn | Mx6dl

  /** `make_fuse` of that SoC file. */
  function MakeFuse(soc: Soc, name: string): Option<Fuse>
  {
    match soc
    case Mx8mp => Imx8mp.MakeFuse(name)
    case Mx8mn => Imx8mn.MakeFuse(name)
    case Mx6dl => Imx6dl.MakeFuse(name)
  }

  /** What the command line loop leaves behind: the fuse name, the argument and the three mode flags. */
  datatype Request = Request(fuseName: string, fuseArg: string, verify: bool, commit: bool, get: bool)

  /**
   * How a run ends: `return code` (with perhaps a message on stderr), printing the
   * fused value and returning 0, or an exception out of a fuse method.
   */
  datatype Outcome =
    | Exit(code: int)
    | Shown(value: string)
    | Aborted(error: Error)

  /** The outcome of a run, the image it leaves and the fuse word positions it wrote, in order. */
  datatype Run = Run(outcome: Outcome, image: seq<Byte>, writes: seq<int>)

  /** A run that ends with `outcome` and never wrote. */
  function Stop(img: seq<Byte>, outcome: Outcome): (r: Run)
    ensures r.image == img && r.writes == [] && r.outcome == outcome
  {
    Run(outcome, img, [])
  }

  /** The dispatch of flash-fuse-main.cpp on image `img`, for the SoC file linked in. */
  function MainSpec(soc: Soc, img: seq<Byte>, req: Request): Run
  {
    Dispatch(img, req, MakeFuse(soc, req.fuseName))
  }

  /**
   * The dispatch, given what `make_fuse` returns for the requested name (`make_fuse`
   * has no effect, so it makes no difference that it is applied before the first checks
   * here).
   */
  function Dispatch(img: seq<Byte>, req: Request, fuse: Option<Fuse>): Run
  {
    if !req.verify && !req.commit && !req.get then Stop(img, Exit(1))
    else if req.fuseName == "" then Stop(img, Exit(1))
    else match fuse
      case None => Stop(img, Exit(1))
      case Some(f) =>
        if req.get then
          match GetSpec(img, f)
          case Err(e) => Stop(img, Aborted(e))
          case Ok(v) => Stop(img, Shown(v))
        else match ValidArg(f, req.fuseArg)
          case Err(e) => Stop(img, Aborted(e))
          case Ok(false) => Stop(img, Exit(1))
          case Ok(true) =>
            match GetSpec(img, f)
            case Err(e) => Stop(img, Aborted(e))
            case Ok(fused) =>
              if fused == req.fuseArg then Stop(img, Exit(0))
              else if req.verify then Stop(img, Exit(1))
              else if req.commit then
                match FuseableSpec(img, f, req.fuseArg)
                case Err(e) => Stop(img, Aborted(e))
                case Ok(false) => Stop(img, Exit(1))
                case Ok(true) =>
                  var e := SetSpec(img, f, req.fuseArg);
                  Run(if e.result.Ok? then Exit(0) else Aborted(e.result.error), e.image, e.writes)
              else
                // "no operation selected": the first check already returned.
                assert false; Stop(img, Exit(1))
  }

  /** The dispatch, over the image the nvmem path names. */
  method RunMain(soc: Soc, store: Image, req: Request) returns (o: Outcome)
    modifies store
    ensures var r := MainSpec(soc, old(store.bytes), req);
      o == r.outcome && store.bytes == r.image && store.trace == old(store.trace) + r.writes
  {
    if !req.verify && !req.commit && !req.get {
      return Exit(1);
    }
    if req.fuseName == "" {
      return Exit(1);
    }
    var fuse := MakeFuse(soc, req.fuseName);
    if fuse.None? {
      return Exit(1);
    }
    var f := fuse.value;
    if req.get {
      var v := Get(store, f);
      if v.Err? {
        return Aborted(v.error);
      }
      return Shown(v.value);
    }
    var valid := ValidArg(f, req.fuseArg);
    if valid.Err? {
      return Aborted(valid.error);
    }
    if !valid.value {
      return Exit(1);
    }
    var fused := Get(store, f);
    if fused.Err? {
      return Aborted(fused.error);
    }
    if fused.value == req.fuseArg {
      return Exit(0);
    }
    if req.verify {
      return Exit(1);
    }
    if req.commit {
      var fuseable := IsFuseable(store, f, req.fuseArg);
      if fuseable.Err? {
        return Aborted(fuseable.error);
      }
      if !fuseable.value {
        return Exit(1);
      }
      var r := Set(store, f, req.fuseArg);
      if r.Err? {
        return Aborted(r.error);
      }
      return Exit(0);
    }
    assert false;
    return Exit(1);
  }

  // ------------------------------------------------------------- the promises

  /** The exit status of an outcome: `main`'s return value, or none when the process aborts. */
  function Status(o: Outcome): Option<int>
  {
    match o
    case Exit(c) => Some(c)
    case Shown(_) => Some(0)
    case Aborted(_) => None
  }

  /** `main` returns 0 or 1. */
  lemma ExitCodes(img: seq<Byte>, req: Request, fuse: Option<Fuse>)
    ensures var o := Dispatch(img, req, fuse).outcome;
      Status(o) == Some(0) || Status(o) == Some(1) || o.Aborted?
  {}

  /** No mode, no fuse name, or a name `make_fuse` does not know: 1, without a look at the image. */
  lemma EarlyExits(img: seq<Byte>, req: Request, fuse: Option<Fuse>)
    requires (!req.verify && !req.commit && !req.get) || req.fuseName == "" || fuse.None?
    ensures Dispatch(img, req, fuse) == Run(Exit(1), img, [])
  {}

  /** `--get` prints `get()` and returns 0 before the argument is looked at, whatever else is asked, and never writes. */
  lemma GetOnlyReads(img: seq<Byte>, req: Request, f: Fuse)
    requires req.get && req.fuseName != ""
    ensures var r := Dispatch(img, req, Some(f));
      r.image == img && r.writes == []
      && r.outcome == match GetSpec(img, f) case Ok(v) => Shown(v) case Err(e) => Aborted(e)
  {}

  /** An argument `valid_arg` rejects: 1 and no write. */
  lemma InvalidArgNoWrite(img: seq<Byte>, req: Request, f: Fuse)
    requires (req.verify || req.commit) && !req.get && req.fuseName != ""
    requires ValidArg(f, req.fuseArg) == Ok(false)
    ensures Dispatch(img, req, Some(f)) == Run(Exit(1), img, [])
  {}

  /** A fuse that already holds the argument: 0 and no write, with `--verify`, `--commit` or both. */
  lemma AlreadyFusedNoWrite(img: seq<Byte>, req: Request, f: Fuse)
    requires (req.verify || req.commit) && !req.get && req.fuseName != ""
    requires ValidArg(f, req.fuseArg) == Ok(true) && GetSpec(img, f) == Ok(req.fuseArg)
    ensures Dispatch(img, req, Some(f)) == Run(Exit(0), img, [])
  {}

  /** `--verify` overrides `--commit`: a fused value other than the argument gives 1 and no write. */
  lemma VerifyOverridesCommit(img: seq<Byte>, req: Request, f: Fuse, fused: string)
    requires req.verify && !req.get && req.fuseName != ""
    requires ValidArg(f, req.fuseArg) == Ok(true)
    requires GetSpec(img, f) == Ok(fused) && fused != req.fuseArg
    ensures Dispatch(img, req, Some(f)) == Run(Exit(1), img, [])
  {}

  /** A commit `is_fuseable` refuses: 1 and no write. */
  lemma NotFuseableNoWrite(img: seq<Byte>, req: Request, f: Fuse, fused: string)
    requires req.commit && !req.verify && !req.get && req.fuseName != ""
    requires ValidArg(f, req.fuseArg) == Ok(true)
    requires GetSpec(img, f) == Ok(fused) && fused != req.fuseArg
    requires FuseableSpec(img, f, req.fuseArg) == Ok(false)
    ensures Dispatch(img, req, Some(f)) == Run(Exit(1), img, [])
  {}

  /**
   * A run that writes is a commit without `--verify` or `--get`, of a valid argument
   * the fuse does not yet hold and `is_fuseable` allows, and what it does is exactly
   * one `set(arg)`: its writes, the image it leaves, and 0 unless `set` threw.
   */
  lemma WritesOnlyBySet(img: seq<Byte>, req: Request, fuse: Option<Fuse>)
    requires Dispatch(img, req, fuse).writes != []
    ensures req.commit && !req.verify && !req.get && req.fuseName != "" && fuse.Some?
    ensures var f := fuse.value; var e := SetSpec(img, f, req.fuseArg);
      ValidArg(f, req.fuseArg) == Ok(true)
      && GetSpec(img, f).Ok? && GetSpec(img, f).value != req.fuseArg
      && FuseableSpec(img, f, req.fuseArg) == Ok(true)
      && Dispatch(img, req, fuse) == Run(if e.result.Ok? then Exit(0) else Aborted(e.result.error), e.image, e.writes)
  {}

  /** Conversely, a commit of a valid argument the fuse does not hold and `is_fuseable` allows is exactly one `set(arg)`. */
  lemma CommitSets(img: seq<Byte>, req: Request, f: Fuse)
    requires req.commit && !req.verify && !req.get && req.fuseName != ""
    requires ValidArg(f, req.fuseArg) == Ok(true)
    requires GetSpec(img, f).Ok? && GetSpec(img, f).value != req.fuseArg
    requires FuseableSpec(img, f, req.fuseArg) == Ok(true)
    ensures var e := SetSpec(img, f, req.fuseArg);
      Dispatch(img, req, Some(f)) == Run(if e.result.Ok? then Exit(0) else Aborted(e.result.error), e.image, e.writes)
  {}

  /** A run changes only bytes of the fuse's own words. */
  lemma RunFrame(img: seq<Byte>, req: Request, fuse: Option<Fuse>)
    ensures var r := Dispatch(img, req, fuse);
      |r.image| == |img|
      && (r.writes != [] ==> fuse.Some?)
      && forall i :: 0 <= i < |img| && r.image[i] != img[i] ==> fuse.Some? && Touches(fuse.value, i)
  {
    var r := Dispatch(img, req, fuse);
    if r.writes != [] || r.image != img {
      SetFrame(img, fuse.value, req.fuseArg);
    }
  }

  /**
   * Committing twice is committing once: when `get` gives back what `set` wrote, a
   * commit that returned 0 leaves an image on which the same commit returns 0
   * without writing.
   */
  lemma CommitIdempotent(img: seq<Byte>, req: Request, f: Fuse)
    requires req.commit && RoundTrips(img, f, req.fuseArg)
    requires Dispatch(img, req, Some(f)).outcome == Exit(0)
    ensures var next := Dispatch(img, req, Some(f)).image;
      Dispatch(next, req, Some(f)) == Run(Exit(0), next, [])
  {
    if Dispatch(img, req, Some(f)).writes != [] {
      WritesOnlyBySet(img, req, Some(f));
      SetThenGet(img, f, req.fuseArg);
    }
  }

  /** Every flag fuse of the three tables but the i.MX8M Nano BOOT_DEVICE is well formed, so a commit of it is idempotent. */
  lemma TableFlagsRoundTrip(soc: Soc, name: string, img: seq<Byte>, arg: string)
    requires MakeFuse(soc, name).Some? && MakeFuse(soc, name).value.Flag?
    requires !(soc == Mx8mn && name == "BOOT_DEVICE")
    ensures RoundTrips(img, MakeFuse(soc, name).value, arg)
  {
    match soc
    case Mx8mp => Imx8mp.MakeFuseFlags(name);
    case Mx8mn => Imx8mn.MakeFuseFlags(name);
    case Mx6dl => Imx6dl.MakeFuseFlags(name);
  }

  /** On a clear field, SDP is a valid BOOT_DEVICE argument that `is_fuseable` allows. */
  lemma Imx8mnSdpFuseable(img: seq<Byte>)
    requires Fits(|img|, Position(Imx8mn.OcotpBootCfg0))
    requires FlagGetSpec(img, FuseTable.ToFlag(Imx8mn.BootDevice)) == Ok("FUSES")
    ensures FlagValidArg(FuseTable.ToFlag(Imx8mn.BootDevice), "SDP")
    ensures FlagFuseableSpec(img, FuseTable.ToFlag(Imx8mn.BootDevice), "SDP") == Ok(true)
  {
    StdMap.FromListFind(Imx8mn.BootDeviceBits, "SDP");
    var w := Decode(ReadAt(img, Position(Imx8mn.OcotpBootCfg0)).value);
    Imx8mn.BootDeviceGet(w);
    FuseTable.BuiltAllows(Imx8mn.BootDevice, w, "SDP", 1);
    Bits.WithinBits(0, 1);
  }

  /** One `--commit SDP` of the i.MX8M Nano BOOT_DEVICE on a clear field: 0, one write, and the field reads clear again. */
  lemma Imx8mnBootDeviceCommit(img: seq<Byte>, req: Request)
    requires req == Request("BOOT_DEVICE", "SDP", false, true, false)
    requires Fits(|img|, Position(Imx8mn.OcotpBootCfg0))
    requires FlagGetSpec(img, FuseTable.ToFlag(Imx8mn.BootDevice)) == Ok("FUSES")
    ensures var r := Dispatch(img, req, Some(Flag(FuseTable.ToFlag(Imx8mn.BootDevice))));
      r.outcome == Exit(0) && r.writes == [Position(Imx8mn.OcotpBootCfg0)]
      && Fits(|r.image|, Position(Imx8mn.OcotpBootCfg0))
      && FlagGetSpec(r.image, FuseTable.ToFlag(Imx8mn.BootDevice)) == Ok("FUSES")
  {
    var f := FuseTable.ToFlag(Imx8mn.BootDevice);
    Imx8mnSdpFuseable(img);
    CommitSets(img, req, Flag(f));
    Imx8mn.BootDeviceSetSdp(img);
    FlagSetOverwrites(img, f, "SDP");
  }

  /**
   * The i.MX8M Nano BOOT_DEVICE is the exception: on a BOOT_CFG0 word whose field is
   * clear, `--commit SDP` writes the word and returns 0, and leaves a word on which
   * the same commit writes it again.
   */
  lemma Imx8mnBootDeviceRecommits(img: seq<Byte>, req: Request)
    requires req == Request("BOOT_DEVICE", "SDP", false, true, false)
    requires Fits(|img|, Position(Imx8mn.OcotpBootCfg0))
    requires FlagGetSpec(img, FuseTable.ToFlag(Imx8mn.BootDevice)) == Ok("FUSES")
    ensures var r := MainSpec(Mx8mn, img, req);
      r.outcome == Exit(0) && r.writes == [Position(0x1c)]
      && MainSpec(Mx8mn, r.image, req).outcome == Exit(0) && MainSpec(Mx8mn, r.image, req).writes == [Position(0x1c)]
  {
    Imx8mn.MakeFuseBootDevice();
    Imx8mnBootDeviceCommit(img, req);
    Imx8mnBootDeviceCommit(MainSpec(Mx8mn, img, req).image, req);
  }
}
