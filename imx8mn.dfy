/**
 * flash-fuse-imx8mn.cpp: the register offsets, the `flag_fuses` table and
 * `make_fuse` for the i.MX8M Nano.
 *
 * The table is checked entry by entry: selectors inside the mask, pairwise
 * distinct, with a zero selector. BOOT_DEVICE is the exception: its selectors
 * 0x1..0x8 lie outside its mask 0xf000, so `get` can only ever name "FUSES".
 */
module Imx8mn {
  import opened Wrappers
  import opened Bits
  import opened Nvmem
  import opened StdMap
  import opened CommonFuse
  import opened FuseTable

  const OcotpLock: int := 0x0
  const OcotpTester4: int := 0x14
  const OcotpBootCfg0: int := 0x1c
  const OcotpBootCfg1: int := 0x20
  const OcotpSrk: seq<int> := [0x60, 0x64, 0x68, 0x6c, 0x70, 0x74, 0x78, 0x7c]
  const OcotpMacAddr0: int := 0x90
  const OcotpMacAddr1: int := 0x94

  const LockBits: Entries<Word> := [("NONE", 0x0), ("WP", 0x4000), ("OP", 0x8000), ("WP+OP", 0xC000)]
  const UsbIdLockBits: Entries<Word> := [("NONE", 0x0), ("WP", 0x1000), ("OP", 0x2000), ("WP+OP", 0x3000)]
  const BootCfgLockBits: Entries<Word> := [("NONE", 0x0), ("WP", 0x4), ("OP", 0x8), ("WP+OP", 0xc)]
  const SrkLockBits: Entries<Word> := [("NONE", 0x0), ("WP+OP", 0x200)]
  const BtFuseSelBits: Entries<Word> := [("BOARD", 0x0), ("FUSE", 0x10000000)]
  const SjcDisableBits: Entries<Word> := [("ENABLED", 0x0), ("DISABLED", 0x200000)]
  const JtagSmodeBits: Entries<Word> := [("JTAG", 0x0), ("SECURE", 0x400000), ("DISABLED", 0xc00000)]
  const SecConfigBits: Entries<Word> := [("OPEN", 0x0), ("CLOSED", 0x2000000)]
  const BootDeviceBits: Entries<Word> := [
    ("FUSES", 0x0), ("SDP", 0x1), ("USDHC3", 0x2), ("USDHC2", 0x3), ("NAND-256", 0x4),
    ("NAND-512", 0x5), ("FLEXSPI-3b", 0x6), ("FLEXSPI-HYPERFLASH", 0x7), ("ECSPI", 0x8)]
  const BootEcspiPortBits: Entries<Word> := [("ECSPI1", 0x0), ("ECSPI2", 0x20000000), ("ECSPI3", 0x40000000)]
  const BootEcspiAddrBits: Entries<Word> := [("3-BYTES", 0x0), ("2-BYTES", 0x10000000)]
  const BootEcspiCsBits: Entries<Word> := [("CS0", 0x0), ("CS1", 0x4000000), ("CS2", 0x8000000), ("CS3", 0xc000000)]

  const MacAddrLock := FlagFuseDesc(OcotpLock, 0xc000, LockBits)
  const UsbIdLock := FlagFuseDesc(OcotpLock, 0x3000, UsbIdLockBits)
  const BootCfgLock := FlagFuseDesc(OcotpLock, 0xc, BootCfgLockBits)
  const SrkLock := FlagFuseDesc(OcotpLock, 0x200, SrkLockBits)
  const BtFuseSel := FlagFuseDesc(OcotpBootCfg0, 0x10000000, BtFuseSelBits)
  const SjcDisable := FlagFuseDesc(OcotpBootCfg0, 0x200000, SjcDisableBits)
  const JtagSmode := FlagFuseDesc(OcotpBootCfg0, 0xc00000, JtagSmodeBits)
  const SecConfig := FlagFuseDesc(OcotpBootCfg0, 0x2000000, SecConfigBits)
  const BootDevice := FlagFuseDesc(OcotpBootCfg0, 0xf000, BootDeviceBits)
  const BootEcspiPort := FlagFuseDesc(OcotpBootCfg1, 0xe0000000, BootEcspiPortBits)
  const BootEcspiAddr := FlagFuseDesc(OcotpBootCfg1, 0x10000000, BootEcspiAddrBits)
  const BootEcspiCs := FlagFuseDesc(OcotpBootCfg1, 0xc000000, BootEcspiCsBits)

  /** The initializer list of `flag_fuses`. */
  const FlagFuseInit: Entries<FlagFuseDesc> := [
    ("MAC_ADDR_LOCK", MacAddrLock), ("USB_ID_LOCK", UsbIdLock), ("BOOT_CFG_LOCK", BootCfgLock),
    ("SRK_LOCK", SrkLock), ("BT_FUSE_SEL", BtFuseSel), ("SJC_DISABLE", SjcDisable),
    ("JTAG_SMODE", JtagSmode), ("SEC_CONFIG", SecConfig), ("BOOT_DEVICE", BootDevice),
    ("BOOT_ECSPI_PORT", BootEcspiPort), ("BOOT_ECSPI_ADDR", BootEcspiAddr), ("BOOT_ECSPI_CS", BootEcspiCs)]

  /**
   * `make_fuse`: MAC, SRK, then a table lookup; anything else is null. `contains` and
   * `at` on the map built from the list find the first entry of the list with the
   * name (StdMap.FromListFind), so the lookup is done on the list.
   */
  function MakeFuse(name: string): Option<Fuse>
  {
    if name == "MAC" then Some(Mac(MacFuse(OcotpMacAddr0, OcotpMacAddr1)))
    else if name == "SRK" then Some(Srk(OcotpSrk))
    else match Find(FlagFuseInit, name)
      case Some(d) => Some(Flag(ToFlag(d)))
      case None => None
  }

  /** The SRK words are eight consecutive fuse words from 0x60. */
  lemma SrkOffsets()
    ensures |OcotpSrk| == 8 && forall i :: 0 <= i < 8 ==> OcotpSrk[i] == 0x60 + 4 * i
  {}

  // Each entry: zero selector first, selectors distinct and, but for BOOT_DEVICE, inside the mask.
  lemma MacAddrLockSound() ensures Sound(MacAddrLock) {}
  lemma UsbIdLockSound() ensures Sound(UsbIdLock) {}
  lemma BootCfgLockSound() ensures Sound(BootCfgLock) {}
  lemma SrkLockSound() ensures Sound(SrkLock) {}
  lemma BtFuseSelSound() ensures Sound(BtFuseSel) {}
  lemma SjcDisableSound() ensures Sound(SjcDisable) {}
  lemma JtagSmodeSound() ensures Sound(JtagSmode) {}
  lemma SecConfigSound() ensures Sound(SecConfig) {}
  lemma BootEcspiPortSound() ensures Sound(BootEcspiPort) {}
  lemma BootEcspiAddrSound() ensures Sound(BootEcspiAddr) {}
  lemma BootEcspiCsSound() ensures Sound(BootEcspiCs) {}
  lemma BootDeviceZeroFirst() ensures ZeroFirst(BootDevice) {}

  /**
   * Every entry of `flag_fuses` lists its zero selector first and has distinct selectors,
   * and every entry but BOOT_DEVICE has its selectors inside its mask.
   */
  lemma TableSound()
    ensures forall i :: 0 <= i < |FlagFuseInit| ==>
      ZeroFirst(FlagFuseInit[i].1) && (FlagFuseInit[i].0 == "BOOT_DEVICE" || Sound(FlagFuseInit[i].1))
  {
    MacAddrLockSound(); UsbIdLockSound(); BootCfgLockSound(); SrkLockSound();
    BtFuseSelSound(); SjcDisableSound(); JtagSmodeSound(); SecConfigSound();
    BootEcspiPortSound(); BootEcspiAddrSound(); BootEcspiCsSound();
    BootDeviceZeroFirst();
  }

  /** `make_fuse`: MAC and SRK at their fixed words, a table name as its entry, and null for anything else. */
  lemma MakeFuseCases(name: string)
    ensures MakeFuse("MAC") == Some(Mac(MacFuse(0x90, 0x94)))
    ensures MakeFuse("SRK") == Some(Srk([0x60, 0x64, 0x68, 0x6c, 0x70, 0x74, 0x78, 0x7c]))
    ensures name != "MAC" && name != "SRK" ==>
      (MakeFuse(name).Some? <==> exists i :: 0 <= i < |FlagFuseInit| && FlagFuseInit[i].0 == name)
    ensures name != "MAC" && name != "SRK" && MakeFuse(name).Some? ==>
      exists i :: 0 <= i < |FlagFuseInit| && FlagFuseInit[i].0 == name && MakeFuse(name) == Some(Flag(ToFlag(FlagFuseInit[i].1)))
  {}

  /** Every flag fuse `make_fuse` returns but BOOT_DEVICE is well formed, so `set` then `get` gives back the name set. */
  lemma MakeFuseFlags(name: string)
    requires MakeFuse(name).Some? && MakeFuse(name).value.Flag?
    ensures name != "BOOT_DEVICE" ==> FlagWellFormed(MakeFuse(name).value.flag)
    ensures FlagName(MakeFuse(name).value.flag, 0) != "UNKNOWN"
  {
    TableSound();
    var d := Find(FlagFuseInit, name).value;
    var i :| 0 <= i < |FlagFuseInit| && FlagFuseInit[i] == (name, d);
    ZeroFirstName(d);
    if name != "BOOT_DEVICE" {
      SoundFlag(d);
    }
  }

  // ------------------------------------------------------------ BOOT_DEVICE

  /** `make_fuse("BOOT_DEVICE")` is the BOOT_DEVICE entry. */
  lemma MakeFuseBootDevice()
    ensures MakeFuse("BOOT_DEVICE") == Some(Flag(ToFlag(BootDevice)))
  {
    assert FlagFuseInit[8] == ("BOOT_DEVICE", BootDevice);
    FindFirst(FlagFuseInit, "BOOT_DEVICE", 8);
  }

  lemma BootDeviceBitsOutside()
    ensures forall i :: 0 < i < |BootDeviceBits| ==> !Within(BootDeviceBits[i].1, 0xf000)
    ensures BootDeviceBits[0] == ("FUSES", 0)
  {}

  /** Every BOOT_DEVICE selector but FUSES has bits outside the mask 0xf000. */
  lemma BootDeviceOutsideMask()
    ensures var f := ToFlag(BootDevice);
      forall i :: 0 <= i < |f.flags| && f.flags[i].1 != 0 ==> !Within(f.flags[i].1, f.mask)
  {
    FromListEntries(BootDeviceBits);
    BootDeviceBitsOutside();
  }

  /** BOOT_DEVICE `get` names FUSES when the field is clear and "UNKNOWN" otherwise. */
  lemma BootDeviceGet(w: Word)
    ensures FlagName(ToFlag(BootDevice), w) == if Masked(w, 0xf000) == 0 then "FUSES" else "UNKNOWN"
  {
    var v := Masked(w, 0xf000);
    BootDeviceBitsOutside();
    if v == 0 {
      BuiltNameOf(BootDeviceBits, 0, "FUSES");
    } else {
      MaskedWithin(w, 0xf000);
      BuiltNameOfNone(BootDeviceBits, v);
    }
  }

  /** `set("SDP")` writes 0x1, and `get` then reads "FUSES". */
  lemma BootDeviceSetSdp(img: seq<Byte>)
    requires Fits(|img|, Position(OcotpBootCfg0))
    ensures var e := FlagSetSpec(img, ToFlag(BootDevice), "SDP");
      e.result.Ok? && WordAt(e.image, Position(OcotpBootCfg0)) == 1
      && FlagGetSpec(e.image, ToFlag(BootDevice)) == Ok("FUSES")
  {
    FromListFind(BootDeviceBits, "SDP");
    BootDeviceGet(1);
    assert Masked(1, 0xf000) == 0;
  }

  // ------------------------------------------------------------- JTAG_SMODE

  /** From SECURE, committing DISABLED only adds bits and is allowed; from DISABLED, SECURE is not. */
  lemma JtagSmodeFuseable(w: Word)
    ensures FlagName(ToFlag(JtagSmode), w) == "SECURE" ==> FlagAllows(ToFlag(JtagSmode), w, "DISABLED") == Ok(true)
    ensures FlagName(ToFlag(JtagSmode), w) == "DISABLED" ==> FlagAllows(ToFlag(JtagSmode), w, "SECURE") == Ok(false)
  {
    BuiltAllows(JtagSmode, w, "DISABLED", 0xc00000);
    BuiltAllows(JtagSmode, w, "SECURE", 0x400000);
    if FlagName(ToFlag(JtagSmode), w) != "UNKNOWN" {
      NameValue(JtagSmode, w);
    }
  }

  // --------------------------------------------------------------- lock word

  /** The four lock fields. */
  const Locks: seq<FlagFuseDesc> := [MacAddrLock, UsbIdLock, BootCfgLock, SrkLock]

  /** The lock fields are sound, share fuse word 0x0, and their masks do not overlap. */
  lemma LocksShareWord()
    ensures forall i :: 0 <= i < |Locks| ==> Sound(Locks[i]) && Locks[i].bits[0].0 == "NONE"
    ensures forall i :: 0 <= i < |Locks| ==> Locks[i].offset == 0
    ensures forall i, j :: 0 <= i < |Locks| && 0 <= j < |Locks| && i != j ==> Masked(Locks[i].mask, Locks[j].mask) == 0
  {
    MacAddrLockSound(); UsbIdLockSound(); BootCfgLockSound(); SrkLockSound();
  }

  /** `set` rewrites the whole lock word: after committing one lock field, every other one reads NONE. */
  lemma LockSetClearsOthers(img: seq<Byte>, i: int, j: int, arg: string)
    requires 0 <= i < |Locks| && 0 <= j < |Locks| && i != j
    requires FlagSetSpec(img, ToFlag(Locks[i]), arg).result.Ok?
    ensures FlagGetSpec(FlagSetSpec(img, ToFlag(Locks[i]), arg).image, ToFlag(Locks[j])) == Ok("NONE")
  {
    LocksShareWord();
    SetClearsOther(img, Locks[i], Locks[j], arg);
  }
}
