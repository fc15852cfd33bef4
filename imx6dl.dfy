/**
 * flash-fuse-imx6dl.cpp: `OFFSET`, the register offsets, the `flag_fuses`
 * table and `make_fuse` for the i.MX6 DualLite.
 *
 * BOOT_MMC_WIDTH lists the name "4-BIT" twice, with two values. A map built
 * from the list keeps the first, so the second value (BIT(13) | BIT(15)) is
 * not a selector: `get` reads it as "UNKNOWN" and `set("4-BIT")` writes BIT(13).
 */
module Imx6dl {
  import opened Wrappers
  import opened Bits
  import opened Nvmem
  import opened StdMap
  import opened CommonFuse
  import opened FuseTable

  /** `OFFSET(bank, word)`: eight words to a bank, four bytes to a word. */
  function Offset(bank: int, word: int): int
  {
    ((bank * 8) + word) * 4
  }

  /** Offsets are word aligned, the word after the last one of a bank is the first of the next, and (bank, word) pairs within a bank do not collide. */
  lemma OffsetLayout(bank: int, word: int, bank': int, word': int)
    requires 0 <= word < 8 && 0 <= word' < 8
    ensures Offset(bank, word) % 4 == 0
    ensures Offset(bank, 8) == Offset(bank + 1, 0)
    ensures Offset(bank, word) == Offset(bank', word') <==> bank == bank' && word == word'
  {
    var i, i' := bank * 8 + word, bank' * 8 + word';
    assert Offset(bank, word) == i * 4 && Offset(bank', word') == i' * 4;
    assert i / 8 == bank && i % 8 == word;
    assert i' / 8 == bank' && i' % 8 == word';
  }

  const OcotpLock: int := Offset(0, 0)
  const OcotpCfg4: int := Offset(0, 5)
  const OcotpCfg5: int := Offset(0, 6)
  const OcotpSrk: seq<int> := [Offset(3, 0), Offset(3, 1), Offset(3, 2), Offset(3, 3),
                               Offset(3, 4), Offset(3, 5), Offset(3, 6), Offset(3, 7)]
  const OcotpMac0: int := Offset(4, 2)
  const OcotpMac1: int := Offset(4, 3)

  /** The offsets the constants come to, MAC0 and MAC1 as the header comment works them out. */
  lemma ConstantValues()
    ensures OcotpLock == 0x0 && OcotpCfg4 == 0x14 && OcotpCfg5 == 0x18
    ensures |OcotpSrk| == 8 && forall i :: 0 <= i < 8 ==> OcotpSrk[i] == 0x60 + 4 * i
    ensures OcotpMac0 == 0x88 && OcotpMac1 == 0x8C
  {}

  const MacLockBits: Entries<Word> := [("NONE", 0x0), ("WP", Bit(8)), ("OP", Bit(9)), ("WP+OP", MaskBits(8, 9))]
  const BtFuseSelBits: Entries<Word> := [("BOARD", 0x0), ("FUSE", Bit(4))]
  const SjcDisableBits: Entries<Word> := [("SJC_ENABLED", 0x0), ("SJC_DISABLED", Bit(20))]
  const SecDisableBits: Entries<Word> := [("OPEN", 0x0), ("CLOSED", Bit(1))]
  const DirBtDisBits: Entries<Word> := [("NXP_RESERVED", 0x0), ("PRODUCTION", Bit(3))]
  const BootDeviceBits: Entries<Word> := [
    ("NOR_Flash", 0x0), ("OneNAND", Bit(3)), ("SERIAL_ROM", MaskBits(4, 5)),
    ("SD/eSD", Bit(6)), ("MMC/eMMC", MaskBits(5, 6)), ("NAND_Flash", Bit(7))]
  const BootMmcPortBits: Entries<Word> := [("uSDHC1", 0x0), ("uSDHC2", Bit(11)), ("uSDHC3", Bit(12)), ("uSDHC4", MaskBits(11, 12))]
  const BootMmcWidthBits: Entries<Word> := [
    ("1-BIT", 0x0), ("4-BIT", Bit(13)), ("8-BIT", Bit(14)), ("4-BIT", Bit(13) | Bit(15)), ("8-BIT-DDR", MaskBits(14, 15))]

  const MacLock := FlagFuseDesc(OcotpLock, MaskBits(8, 9), MacLockBits)
  const BtFuseSel := FlagFuseDesc(OcotpCfg5, Bit(4), BtFuseSelBits)
  const SjcDisable := FlagFuseDesc(OcotpCfg5, Bit(20), SjcDisableBits)
  const SecDisable := FlagFuseDesc(OcotpCfg5, Bit(1), SecDisableBits)
  const DirBtDis := FlagFuseDesc(OcotpCfg5, Bit(3), DirBtDisBits)
  const BootDevice := FlagFuseDesc(OcotpCfg4, MaskBits(3, 7), BootDeviceBits)
  const BootMmcPort := FlagFuseDesc(OcotpCfg4, MaskBits(11, 12), BootMmcPortBits)
  const BootMmcWidth := FlagFuseDesc(OcotpCfg5, MaskBits(13, 15), BootMmcWidthBits)

  /** The initializer list of `flag_fuses`. */
  const FlagFuseInit: Entries<FlagFuseDesc> := [
    ("MAC_LOCK", MacLock), ("BT_FUSE_SEL", BtFuseSel), ("SJC_DISABLE", SjcDisable),
    ("SEC_DISABLE", SecDisable), ("DIR_BT_DIS", DirBtDis), ("BOOT_DEVICE", BootDevice),
    ("BOOT_MMC_PORT", BootMmcPort), ("BOOT_MMC_WIDTH", BootMmcWidth)]

  /**
   * `make_fuse`: MAC, SRK, then a table lookup; anything else is null. The lookup
   * is done on the initializer list, where it finds what `contains` and `at`
   * find on the map (StdMap.FromListFind).
   */
  function MakeFuse(name: string): Option<Fuse>
  {
    if name == "MAC" then Some(Mac(MacFuse(OcotpMac0, OcotpMac1)))
    else if name == "SRK" then Some(Srk(OcotpSrk))
    else match Find(FlagFuseInit, name)
      case Some(d) => Some(Flag(ToFlag(d)))
      case None => None
  }

  // Each entry: zero selector first, selectors distinct and inside the mask.
  lemma MacLockSound() ensures Sound(MacLock) {}
  lemma BtFuseSelSound() ensures Sound(BtFuseSel) {}
  lemma SjcDisableSound() ensures Sound(SjcDisable) {}
  lemma SecDisableSound() ensures Sound(SecDisable) {}
  lemma DirBtDisSound() ensures Sound(DirBtDis) {}
  lemma BootDeviceSound() ensures Sound(BootDevice) {}
  lemma BootMmcPortSound() ensures Sound(BootMmcPort) {}
  lemma BootMmcWidthSound() ensures Sound(BootMmcWidth) {}

  /** Every entry of `flag_fuses` lists its zero selector first and has distinct selectors inside its mask. */
  lemma TableSound()
    ensures forall i :: 0 <= i < |FlagFuseInit| ==> Sound(FlagFuseInit[i].1)
  {
    MacLockSound(); BtFuseSelSound(); SjcDisableSound(); SecDisableSound();
    DirBtDisSound(); BootDeviceSound(); BootMmcPortSound(); BootMmcWidthSound();
  }

  /** `make_fuse`: MAC and SRK at their fixed words, a table name as its entry, and null for anything else. */
  lemma MakeFuseCases(name: string)
    ensures MakeFuse("MAC") == Some(Mac(MacFuse(0x88, 0x8C)))
    ensures MakeFuse("SRK") == Some(Srk([0x60, 0x64, 0x68, 0x6c, 0x70, 0x74, 0x78, 0x7c]))
    ensures name != "MAC" && name != "SRK" ==>
      (MakeFuse(name).Some? <==> exists i :: 0 <= i < |FlagFuseInit| && FlagFuseInit[i].0 == name)
    ensures name != "MAC" && name != "SRK" && MakeFuse(name).Some? ==>
      exists i :: 0 <= i < |FlagFuseInit| && FlagFuseInit[i].0 == name && MakeFuse(name) == Some(Flag(ToFlag(FlagFuseInit[i].1)))
  {}

  /** Every flag fuse `make_fuse` returns is well formed, so `set` then `get` gives back the name set, and reads a zero word as a named selector. */
  lemma MakeFuseFlags(name: string)
    requires MakeFuse(name).Some? && MakeFuse(name).value.Flag?
    ensures FlagWellFormed(MakeFuse(name).value.flag)
    ensures FlagName(MakeFuse(name).value.flag, 0) != "UNKNOWN"
  {
    TableSound();
    var d := Find(FlagFuseInit, name).value;
    var i :| 0 <= i < |FlagFuseInit| && FlagFuseInit[i] == (name, d);
    SoundFlag(d);
  }

  // ---------------------------------------------------------- BOOT_MMC_WIDTH

  /** What the BIT and MASK expressions of BOOT_MMC_WIDTH come to. */
  const BootMmcWidthValues: Entries<Word> := [
    ("1-BIT", 0x0), ("4-BIT", 0x2000), ("8-BIT", 0x4000), ("4-BIT", 0xA000), ("8-BIT-DDR", 0xC000)]

  lemma BootMmcWidthComputed()
    ensures BootMmcWidth.mask == 0xE000 && BootMmcWidthBits == BootMmcWidthValues
  {}

  /** The first "4-BIT" of the list is the one a lookup finds. */
  lemma BootMmcWidthFirstWins()
    ensures Find(BootMmcWidthValues, "4-BIT") == Some(0x2000)
    ensures BootMmcWidthValues[3] == ("4-BIT", 0xA000)
  {}

  /** "4-BIT" reads back from BIT(13) alone. */
  lemma BootMmcWidthFourBit()
    ensures FlagName(ToFlag(BootMmcWidth), 0x2000) == "4-BIT"
    ensures Find(ToFlag(BootMmcWidth).flags, "4-BIT") == Some(0x2000)
  {
    BootMmcWidthComputed();
    BootMmcWidthFirstWins();
    assert Masked(0x2000, 0xE000) == 0x2000;
    BuiltNameOf(BootMmcWidthValues, 0x2000, "4-BIT");
    FromListFind(BootMmcWidthValues, "4-BIT");
  }

  /** The second value listed for "4-BIT", BIT(13) | BIT(15), is not a selector and reads as "UNKNOWN". */
  lemma BootMmcWidthDropped()
    ensures FlagName(ToFlag(BootMmcWidth), 0xA000) == "UNKNOWN"
  {
    BootMmcWidthComputed();
    BootMmcWidthFirstWins();
    assert Masked(0xA000, 0xE000) == 0xA000;
    BuiltNameOfNone(BootMmcWidthValues, 0xA000);
  }

  // ------------------------------------------------------------- BOOT_DEVICE

  /** What the BIT and MASK expressions of BOOT_DEVICE come to. */
  const BootDeviceValues: Entries<Word> := [
    ("NOR_Flash", 0x0), ("OneNAND", 0x8), ("SERIAL_ROM", 0x30), ("SD/eSD", 0x40), ("MMC/eMMC", 0x60), ("NAND_Flash", 0x80)]

  lemma BootDeviceComputed()
    ensures BootDevice.mask == 0xf8 && BootDeviceBits == BootDeviceValues
  {}

  /** Each device name is found with its own value. */
  lemma BootDeviceFinds(i: int)
    requires 0 <= i < |BootDeviceValues|
    ensures Find(BootDeviceValues, BootDeviceValues[i].0) == Some(BootDeviceValues[i].1)
  {}

  /** BOOT_DEVICE `get` names a device exactly when bits 3..7 of CFG4 hold its value. */
  lemma BootDeviceGet(w: Word, i: int)
    requires 0 <= i < |BootDeviceValues|
    ensures FlagName(ToFlag(BootDevice), w) == BootDeviceValues[i].0 <==> Masked(w, 0xf8) == BootDeviceValues[i].1
  {
    BootDeviceSound();
    BootDeviceComputed();
    BootDeviceFinds(i);
    SoundNameIff(BootDevice, w, i);
  }
}
