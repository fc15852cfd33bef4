/**
 * flash-fuse-imx8mp.cpp: `OFFSET`, the register offsets, the `flag_fuses`
 * table and `make_fuse` for the i.MX8M Plus.
 *
 * The table entries the source keeps in comments (BOOT_CFG_LOCK, SRK_LOCK,
 * SJC_DISABLE, JTAG_SMODE, SEC_CONFIG) and the commented-out SRK branch of
 * `make_fuse` are not part of the program and are absent here too.
 */
module Imx8mp {
  import opened Wrappers
  import opened Bits
  import opened StdMap
  import opened CommonFuse
  import opened FuseTable
  import Imx8mn

  /** `OFFSET(bank, word)`: four words to a bank, four bytes to a word. */
  function Offset(bank: int, word: int): int
  {
    ((bank * 4) + word) * 4
  }

  /** Offsets are word aligned, the word after the last one of a bank is the first of the next, and (bank, word) pairs within a bank do not collide. */
  lemma OffsetLayout(bank: int, word: int, bank': int, word': int)
    requires 0 <= word < 4 && 0 <= word' < 4
    ensures Offset(bank, word) % 4 == 0
    ensures Offset(bank, 4) == Offset(bank + 1, 0)
    ensures Offset(bank, word) == Offset(bank', word') <==> bank == bank' && word == word'
  {
    var i, i' := bank * 4 + word, bank' * 4 + word';
    assert Offset(bank, word) == i * 4 && Offset(bank', word') == i' * 4;
    assert i / 4 == bank && i % 4 == word;
    assert i' / 4 == bank' && i' % 4 == word';
  }

  const OcotpLock: int := Offset(0, 0)
  const OcotpBootCfg0: int := Offset(1, 3)
  const OcotpBootCfg1: int := Offset(2, 0)
  const OcotpBootCfg2: int := Offset(2, 1)
  const OcotpSrk: seq<int> := [Offset(6, 0), Offset(6, 1), Offset(6, 2), Offset(6, 3),
                               Offset(7, 0), Offset(7, 1), Offset(7, 2), Offset(7, 3)]
  const OcotpMacAddr0: int := Offset(9, 0)
  const OcotpMacAddr1: int := Offset(9, 1)
  const OcotpMacAddr2: int := Offset(9, 2)

  /** The offsets the constants come to. */
  lemma ConstantValues()
    ensures OcotpLock == 0x0 && OcotpBootCfg0 == 0x1c && OcotpBootCfg1 == 0x20 && OcotpBootCfg2 == 0x24
    ensures |OcotpSrk| == 8 && forall i :: 0 <= i < 8 ==> OcotpSrk[i] == 0x60 + 4 * i
    ensures OcotpMacAddr0 == 0x90 && OcotpMacAddr1 == 0x94 && OcotpMacAddr2 == 0x98
  {}

  /** The constants the two SoC files share hold the same offsets. */
  lemma AgreesWithImx8mn()
    ensures OcotpLock == Imx8mn.OcotpLock
    ensures OcotpBootCfg0 == Imx8mn.OcotpBootCfg0 && OcotpBootCfg1 == Imx8mn.OcotpBootCfg1
    ensures OcotpSrk == Imx8mn.OcotpSrk
    ensures OcotpMacAddr0 == Imx8mn.OcotpMacAddr0 && OcotpMacAddr1 == Imx8mn.OcotpMacAddr1
  {}

  const MacAddrLockBits: Entries<Word> := [("NONE", 0x0), ("WP", Bit(14)), ("OP", Bit(15)), ("WP+OP", MaskBits(14, 15))]
  const UsbIdLockBits: Entries<Word> := [("NONE", 0x0), ("WP", Bit(12)), ("OP", Bit(13)), ("WP+OP", MaskBits(12, 13))]
  const BtFuseSelBits: Entries<Word> := [("NONE", 0x0), ("PROGRAMMED", Bit(28))]
  const BootDeviceBits: Entries<Word> := [
    ("FUSES", 0x0), ("SDP", Bit(12)), ("USDHC3", Bit(13)), ("USDHC2", MaskBits(12, 13)),
    ("NAND-256", Bit(14)), ("NAND-512", Bit(12) | Bit(14)), ("FLEXSPI-3b", MaskBits(13, 14)),
    ("FLEXSPI-HYPERFLASH", MaskBits(12, 14)), ("ECSPI", Bit(15)),
    ("FLEXSPI-SNAND-2K", Bit(13) | Bit(15)), ("FLEXSPI-SNAND-4K", Bit(12) | Bit(13) | Bit(15))]
  const ForceBtFromFuseBits: Entries<Word> := [("DISABLED", 0x0), ("ENABLED", Bit(20))]
  const BootEcspiPortBits: Entries<Word> := [("ECSPI1", 0x0), ("ECSPI2", Bit(29)), ("ECSPI3", Bit(30))]
  const BootEcspiAddrBits: Entries<Word> := [("3-BYTES", 0x0), ("2-BYTES", Bit(28))]
  const BootEcspiCsBits: Entries<Word> := [("CS0", 0x0), ("CS1", Bit(26)), ("CS2", Bit(27)), ("CS3", MaskBits(26, 27))]
  const ImgCntnSet1OffsetBits: Entries<Word> := [
    ("N_0", 0x0), ("N_1", Bit(19)), ("N_2", Bit(20)), ("N_3", MaskBits(19, 20)), ("N_4", Bit(21)),
    ("N_5", Bit(19) | Bit(21)), ("N_6", MaskBits(20, 21)), ("N_7", MaskBits(19, 21)), ("N_8", Bit(22)),
    ("N_9", Bit(19) | Bit(22)), ("N_10", Bit(20) | Bit(22))]

  const MacAddrLock := FlagFuseDesc(OcotpLock, MaskBits(14, 15), MacAddrLockBits)
  const UsbIdLock := FlagFuseDesc(OcotpLock, MaskBits(12, 13), UsbIdLockBits)
  const BtFuseSel := FlagFuseDesc(OcotpBootCfg0, Bit(28), BtFuseSelBits)
  const BootDevice := FlagFuseDesc(OcotpBootCfg0, MaskBits(12, 15), BootDeviceBits)
  const ForceBtFromFuse := FlagFuseDesc(OcotpBootCfg1, Bit(20), ForceBtFromFuseBits)
  const BootEcspiPort := FlagFuseDesc(OcotpBootCfg1, MaskBits(29, 31), BootEcspiPortBits)
  const BootEcspiAddr := FlagFuseDesc(OcotpBootCfg1, Bit(28), BootEcspiAddrBits)
  const BootEcspiCs := FlagFuseDesc(OcotpBootCfg1, MaskBits(26, 27), BootEcspiCsBits)
  const ImgCntnSet1Offset := FlagFuseDesc(OcotpBootCfg2, MaskBits(19, 22), ImgCntnSet1OffsetBits)

  /** The initializer list of `flag_fuses`. */
  const FlagFuseInit: Entries<FlagFuseDesc> := [
    ("MAC_ADDR_LOCK", MacAddrLock), ("USB_ID_LOCK", UsbIdLock), ("BT_FUSE_SEL", BtFuseSel),
    ("BOOT_DEVICE", BootDevice), ("FORCE_BT_FROM_FUSE", ForceBtFromFuse),
    ("BOOT_ECSPI_PORT", BootEcspiPort), ("BOOT_ECSPI_ADDR", BootEcspiAddr),
    ("BOOT_ECSPI_CS", BootEcspiCs), ("IMG_CNTN_SET1_OFFSET", ImgCntnSet1Offset)]

  /**
   * `make_fuse`: MAC, MAC2, then a table lookup; anything else, SRK included, is
   * null. The lookup is done on the initializer list, where it finds what
   * `contains` and `at` find on the map (StdMap.FromListFind).
   */
  function MakeFuse(name: string): Option<Fuse>
  {
    if name == "MAC" then Some(Mac(MacFuse(OcotpMacAddr0, OcotpMacAddr1)))
    else if name == "MAC2" then Some(Mac2(OcotpMacAddr1, OcotpMacAddr2))
    else match Find(FlagFuseInit, name)
      case Some(d) => Some(Flag(ToFlag(d)))
      case None => None
  }

  // Each entry: zero selector first, selectors distinct and inside the mask.
  lemma MacAddrLockSound() ensures Sound(MacAddrLock) {}
  lemma UsbIdLockSound() ensures Sound(UsbIdLock) {}
  lemma BtFuseSelSound() ensures Sound(BtFuseSel) {}
  lemma ForceBtFromFuseSound() ensures Sound(ForceBtFromFuse) {}
  lemma BootEcspiPortSound() ensures Sound(BootEcspiPort) {}
  lemma BootEcspiAddrSound() ensures Sound(BootEcspiAddr) {}
  lemma BootEcspiCsSound() ensures Sound(BootEcspiCs) {}

  /** What the BIT and MASK expressions of BootDevice come to. */
  const BootDeviceValues: Entries<Word> := [
      ("FUSES", 0x0), ("SDP", 0x1000), ("USDHC3", 0x2000), ("USDHC2", 0x3000),
      ("NAND-256", 0x4000), ("NAND-512", 0x5000), ("FLEXSPI-3b", 0x6000),
      ("FLEXSPI-HYPERFLASH", 0x7000), ("ECSPI", 0x8000),
      ("FLEXSPI-SNAND-2K", 0xa000), ("FLEXSPI-SNAND-4K", 0xb000)]

  lemma BootDeviceComputed()
    ensures BootDevice.mask == 0xf000 && BootDeviceBits == BootDeviceValues
  {}

  lemma BootDeviceValuesDistinct() ensures DistinctValues(BootDeviceValues)
  {
    assert Ascending(BootDeviceValues);
    AscendingDistinct(BootDeviceValues);
  }

  lemma BootDeviceValuesInMask() ensures InMask(BootDeviceValues, 0xf000) {}

  lemma BootDeviceSound() ensures Sound(BootDevice)
  {
    BootDeviceComputed();
    BootDeviceValuesDistinct();
    BootDeviceValuesInMask();
  }

  /** What the BIT and MASK expressions of ImgCntnSet1Offset come to. */
  const ImgCntnSet1OffsetValues: Entries<Word> := [
      ("N_0", 0x0), ("N_1", 0x80000), ("N_2", 0x100000), ("N_3", 0x180000), ("N_4", 0x200000),
      ("N_5", 0x280000), ("N_6", 0x300000), ("N_7", 0x380000), ("N_8", 0x400000),
      ("N_9", 0x480000), ("N_10", 0x500000)]

  lemma ImgCntnSet1OffsetComputed()
    ensures ImgCntnSet1Offset.mask == 0x780000 && ImgCntnSet1OffsetBits == ImgCntnSet1OffsetValues
  {}

  lemma ImgCntnSet1OffsetValuesDistinct() ensures DistinctValues(ImgCntnSet1OffsetValues)
  {
    assert Ascending(ImgCntnSet1OffsetValues);
    AscendingDistinct(ImgCntnSet1OffsetValues);
  }

  lemma ImgCntnSet1OffsetValuesInMask() ensures InMask(ImgCntnSet1OffsetValues, 0x780000) {}

  lemma ImgCntnSet1OffsetSound() ensures Sound(ImgCntnSet1Offset)
  {
    ImgCntnSet1OffsetComputed();
    ImgCntnSet1OffsetValuesDistinct();
    ImgCntnSet1OffsetValuesInMask();
  }

  /** Every entry of `flag_fuses` lists its zero selector first and has distinct selectors inside its mask. */
  lemma TableSound()
    ensures forall i :: 0 <= i < |FlagFuseInit| ==> Sound(FlagFuseInit[i].1)
  {
    MacAddrLockSound(); UsbIdLockSound(); BtFuseSelSound(); BootDeviceSound();
    ForceBtFromFuseSound(); BootEcspiPortSound(); BootEcspiAddrSound(); BootEcspiCsSound();
    ImgCntnSet1OffsetSound();
  }

  /** The SRK branch of `make_fuse` is commented out: SRK is not a fuse here. */
  lemma MakeFuseSrk()
    ensures MakeFuse("SRK") == None
  {}

  /** `make_fuse`: MAC and MAC2 at their fixed words, a table name as its entry, and null for anything else. */
  lemma MakeFuseCases(name: string)
    ensures MakeFuse("MAC") == Some(Mac(MacFuse(0x90, 0x94)))
    ensures MakeFuse("MAC2") == Some(Mac2(0x94, 0x98))
    ensures name != "MAC" && name != "MAC2" ==>
      (MakeFuse(name).Some? <==> exists i :: 0 <= i < |FlagFuseInit| && FlagFuseInit[i].0 == name)
    ensures name != "MAC" && name != "MAC2" && MakeFuse(name).Some? ==>
      exists i :: 0 <= i < |FlagFuseInit| && FlagFuseInit[i].0 == name && MakeFuse(name) == Some(Flag(ToFlag(FlagFuseInit[i].1)))
  {}

  /** Every flag fuse `make_fuse` returns is well formed, so `set` then `get` gives back the name set, and reads a zero word as a named selector. */
  lemma MakeFuseFlags(name: string)
    requires MakeFuse(name).Some? && MakeFuse(name).value.Flag?
    ensures FlagWellFormed(MakeFuse(name).value.flag)
    ensures FlagName(MakeFuse(name).value.flag, 0) != "UNKNOWN"
  {
    TableSound();
    var d := Find(FlagFuseInit, name).value;
    var i :| 0 <= i < |FlagFuseInit| && FlagFuseInit[i] == (name, d);
    SoundFlag(d);
  }
}
