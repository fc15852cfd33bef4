# flash-fuse: a Dafny model of the i.MX OTP fuse tools

The repository holds tools that burn the one-time-programmable (OTP) fuses of NXP i.MX
system-on-chips. This project models them and proves properties of the model.

**The C++ tool (`flash-fuse-<soc>`)** works on the OCOTP nvmem file, a byte image in which
every fuse word is four little-endian bytes. The model covers:

- the fuse kinds of `flash-fuse-common.cpp`:
  - `FlagFuse`, a named selector inside a masked field of one word;
  - `MACFuse`, six octets spread over two words;
- the `BIT` and `MASK` helpers;
- the dispatch of `flash-fuse-main.cpp`:
  - `--get` prints the value;
  - `--verify` and `--commit` compare the fused value with the requested one;
  - `--commit` writes only when `is_fuseable` allows it;
- the register tables and `make_fuse` of the i.MX8M Plus, i.MX8M Nano and i.MX6DL.

The nvmem image is a class (`Nvmem.Image`) whose byte sequence `read_fuse` and
`write_fuse` read and replace. A ghost trace records every write position, so the lemmas
can say "nothing was written" or "exactly these words were written".

Every `get`, `is_fuseable` and `set` is a method proved equal to a specification function
of the image. The properties are lemmas about those functions. Three of them concern the
tables:

- the tables are well formed;
- `set` followed by `get` returns the name set;
- `is_fuseable` only ever lets bits be added.

**The standalone i.MX8M Mini tool (`flash-fuse-imx8mm.cpp`)** has its own `IFuse` with a
default one-or-zero fuse, `FuseMAC` and `FuseLockMAC`, its own `make_fuse` and its own
`main`. Its decision step refuses to write over any fuse that already reads as fused.

**The Python tool (`flash-fuse-imx.py`)** works on the i.MX6 `fsl_otp` sysfs directory. There
every fuse word is a file holding the word as hexadecimal text. The model holds that
directory as a class over a map from register name to value. It covers:

- the single-mask fuse classes (`CFG5_DIR_BT_DIS` and its subclasses), `Srk` and
  `EthernetMac`;
- `fuse_obj_map`;
- the decision step of `__main__`.

The proofs cover three things:

- the exit-status rules;
- which runs write, and what they write;
- blowing a value and reading it back returns the same text, for SRK keys and MAC
  addresses alike.

Three behaviours of the source are modelled as written, and lemmas state them.

**The common C++ code scales fuse offsets twice.** It seeks to `offset * 4`, although the
SoC tables already hold byte offsets: `OFFSET` multiplies by four, and 0x90 is the i.MX8M
Plus MAC0 word. So the model reads and writes fuse word `offset` at byte `offset * 4`
(`CommonFuse.Position`). The i.MX8M Mini tool uses `pread`/`pwrite` at the offset itself
(`Imx8mm.FuseMacIsMacFuse`).

**The i.MX8M Nano `BOOT_DEVICE` selectors lie outside its mask.** They are 0x1 … 0x8, under
mask 0xf000. As a result:

- `get` reads every one of them as `FUSES` or `UNKNOWN`;
- a commit of `SDP` over `FUSES` writes 0x1 and still reads back `FUSES`;
- so every commit writes again (`FuseMain.Imx8mnBootDeviceRecommits`).

**The i.MX6DL `BOOT_MMC_WIDTH` table names `4-BIT` twice.** The `std::map` initializer keeps
the first entry, so the selector 0xA000 reads as `UNKNOWN`
(`Imx6dl.BootMmcWidthDropped`).

## Model

| member | source | states |
|---|---|---|
| Bits.BitExact | flash-fuse-common.h:6-9 | `BIT(n)` has bit n set and no other bit |
| Bits.OrHasBit | flash-fuse-common.h:14-15 | a bit of `a \| b` is set exactly when it is set in `a` or in `b` |
| Bits.MaskBitsExact | flash-fuse-common.h:11-17 | `MASK(start, end)` has exactly the bits start..end set, and none when start > end |
| Bits.MaskBitsEmpty | flash-fuse-common.h:11-17 | an empty range gives the mask 0 |
| Bits.MaskBitsSingle | flash-fuse-common.h:6-17 | `MASK(n, n) == BIT(n)` |
| Bits.MaskBitsSplit | flash-fuse-common.h:11-17 | a range splits into two adjacent ranges whose masks OR together |
| Bits.Mask | flash-fuse-common.h:11-17 | the loop returns `MASK(start, end)`: bit k is set exactly when start <= k <= end |
| Bits.WithinBits | flash-fuse-common.cpp:64-67 | `v & ~m == 0` exactly when every set bit of v is a bit of m |
| Bits.MaskedTwice | flash-fuse-common.cpp:70 | masking a masked word again changes nothing |
| Bits.WithinMask | flash-fuse-common.cpp:64-70 | a value within the mask is unchanged by masking |
| Bits.MaskedWithin | flash-fuse-common.cpp:64-70 | a masked word lies within the mask |
| Bits.WithinDisjoint | flash-fuse-common.cpp:64-70 | a value within one mask has no bit of a disjoint mask |
| Nvmem.Encode | flash-fuse-common.cpp:79-85 | the four bytes `set` builds decode back to the value, low byte first and high byte last |
| Nvmem.EncodeDecode | flash-fuse-common.cpp:50-56 | the value `read_bank` assembles from four bytes encodes back to those bytes |
| Nvmem.WriteAt | flash-fuse-common.cpp:32-48 | a write keeps the image length, replaces the four bytes at the position when they exist, and leaves every other byte alone |
| Nvmem.Put | flash-fuse-common.cpp:32-48 | one write is logged; it succeeds exactly when the word fits; the word then decodes to the buffer; a failed write leaves the image unchanged |
| Nvmem.ReadOwnWrite | flash-fuse-common.cpp:12-48 | reading back the word just written gives the buffer written |
| Nvmem.ReadOtherWrite | flash-fuse-common.cpp:12-48 | a write does not change a read of a disjoint word |
| Nvmem.WriteTwice | flash-fuse-common.cpp:32-48 | of two writes to the same word the second wins |
| Nvmem.Image.Read | flash-fuse-common.cpp:12-30 | `read_fuse` on the image returns what `ReadAt` states |
| Nvmem.Image.Write | flash-fuse-common.cpp:32-48 | `write_fuse` replaces the image by `WriteAt`, appends the position to the trace, and fails exactly when the word does not fit |
| StdMap.LessTransitive | flash-fuse-common.h:60 | the key order of `std::map<std::string, …>` is transitive |
| StdMap.LessTotal | flash-fuse-common.h:60 | the key order is total: two distinct keys compare one way or the other |
| StdMap.LessIrreflexive | flash-fuse-common.h:60 | no key is less than itself |
| StdMap.OrderedKeysDistinct | flash-fuse-common.h:60 | the keys of an ordered map are pairwise distinct |
| StdMap.Find | flash-fuse-common.cpp:60-67 | `contains`/`at`: a key is found exactly when some entry has it, with that entry's value |
| StdMap.FindFirst | flash-fuse-common.cpp:60-67 | the first entry with the key decides the value found |
| StdMap.Insert | flash-fuse-imx6dl.cpp:100-107 | insertion keeps the map ordered, leaves it unchanged when the key is present, and otherwise adds exactly the new key |
| StdMap.FromList | flash-fuse-imx8mp.cpp:56-157 | the map built from an initializer list is ordered |
| StdMap.FromListFind | flash-fuse-imx6dl.cpp:100-107 | a lookup in the map built from a list finds what the first occurrence of the key in the list holds |
| StdMap.FromListEntries | flash-fuse-imx8mp.cpp:56-157 | every entry of the built map comes from the list |
| HexText.UpperDigit | flash-fuse-common.cpp:113 | the digit `%X` prints for a nibble is a hex digit of that value, never lower case |
| HexText.LowerDigit | flash-fuse-imx.py:83-84 | the digit the `x` format prints for a nibble is a hex digit of that value, never upper case |
| HexText.ToUpper | flash-fuse-common.cpp:97-113 | upper-casing a hex digit keeps its value and gives the digit `%X` prints for it |
| MacCodec.Octet | flash-fuse-common.cpp:97 | the byte built from two nibbles has them as its high and low nibble |
| MacCodec.OctetOfDigits | flash-fuse-common.cpp:97 | every byte is rebuilt from its two nibbles |
| MacCodec.Field | flash-fuse-common.cpp:97 | `%02hhX` on two hex digits gives the byte whose nibbles are their values |
| MacCodec.ScanPairs | flash-fuse-common.cpp:97 | scanning yields one byte per two characters |
| MacCodec.Scan | flash-fuse-common.cpp:96-99 | the six conversions all succeed exactly when the text has at least twelve characters and the first twelve are hex digits |
| MacCodec.HexPairs | flash-fuse-common.cpp:113 | formatting prints two hex digits per byte; that they scan back to the bytes is `MacCodec.ScanPairsHexPairs` |
| MacCodec.Hex2 | flash-fuse-common.cpp:113 | `%02X` prints one byte as two characters; their values are stated by `MacCodec.Hex2Field` |
| MacCodec.Upper | flash-fuse-common.cpp:97-113 | upper-casing hex text keeps its length and leaves hex digits |
| MacCodec.Format | flash-fuse-common.cpp:113 | six bytes print as twelve characters; that they scan back to the bytes is `MacCodec.FormatThenScan` |
| MacCodec.Hex2Field | flash-fuse-common.cpp:97-113 | printing a scanned byte gives its two digits in upper case |
| MacCodec.HexPairsScanPairs | flash-fuse-common.cpp:97-113 | formatting the scanned bytes gives the scanned text in upper case |
| MacCodec.ScanPairsHexPairs | flash-fuse-common.cpp:97-113 | scanning the formatted bytes gives the bytes back |
| MacCodec.HexPairsZero | flash-fuse-common.cpp:106 | the formatted digits are all `0` exactly when every byte is zero |
| MacCodec.ScanThenFormat | flash-fuse-common.cpp:97-113 | for a twelve-character text that scans, formatting the result gives the text upper-cased, character by character |
| MacCodec.FormatThenScan | flash-fuse-common.cpp:97-113 | scanning the formatted text gives the six bytes back |
| MacCodec.FormatZero | flash-fuse-common.cpp:106 | the formatted text is `000000000000` exactly when all six bytes are zero |
| MacCodec.Unlayout | flash-fuse-common.cpp:108-128 | the octets `get` reads from two words are exactly those `set` writes back as the same two words when the high half of MAC1 is zero, and only then |
| MacCodec.UnlayoutLayout | flash-fuse-common.cpp:108-128 | reading back the two words `set` builds gives the six octets in order |
| MacCodec.LayoutWords | flash-fuse-common.cpp:121-127 | as words: MAC0 holds octets 2..5 from high to low byte, and MAC1 holds octets 0 and 1 in its low half |
| MacCodec.Text | flash-fuse-common.cpp:108-117 | `get` prints twelve characters, and they are all `0` exactly when MAC0 and the low half of MAC1 are zero |
| CommonFuse.FlagValidArg | flash-fuse-common.cpp:60-63 | a name is valid exactly when some flag entry has it |
| CommonFuse.NameOfNone | flash-fuse-common.cpp:68-76 | a masked value no entry has reads as `UNKNOWN` |
| CommonFuse.NameOfFirst | flash-fuse-common.cpp:68-76 | the first entry, in map order, whose bits equal the masked value names it |
| CommonFuse.NameOfFound | flash-fuse-common.cpp:68-76 | `get` returns `UNKNOWN` or the name of an entry with that value |
| CommonFuse.FlagAllows | flash-fuse-common.cpp:64-67 | `is_fuseable` throws (`at` out of range) exactly when the name is absent |
| CommonFuse.FlagGet | flash-fuse-common.cpp:68-76 | the range-for returns the specification's name for the image |
| CommonFuse.FlagIsFuseable | flash-fuse-common.cpp:64-67 | the method returns the specification's verdict for the image |
| CommonFuse.FlagSet | flash-fuse-common.cpp:77-87 | the new image, trace and result are those of the specification |
| CommonFuse.FlagValidArgAgrees | flash-fuse-common.cpp:60-87 | on a readable word, `valid_arg` holds exactly when `is_fuseable` and `set` do not throw |
| CommonFuse.FlagAllowsOnlyAdds | flash-fuse-common.cpp:64-67 | `is_fuseable` holds exactly when every masked bit already set is also set in the requested selector |
| CommonFuse.FlagIgnoresUnmasked | flash-fuse-common.cpp:64-76 | `get` and `is_fuseable` ignore the bits outside the mask |
| CommonFuse.FlagNameOfValue | flash-fuse-common.cpp:68-76 | in a well-formed fuse, the value of a valid name reads back as that name |
| CommonFuse.FlagEntryDecodes | flash-fuse-common.cpp:68-76 | in a well-formed fuse, every entry's bits read as its own name |
| CommonFuse.FlagSetOverwrites | flash-fuse-common.cpp:77-87 | a successful `set` writes one word at position offset*4, replacing it with the selector |
| CommonFuse.FlagSetThenGet | flash-fuse-common.cpp:68-87 | in a well-formed fuse, `get` after a successful `set` returns the name set |
| CommonFuse.MacValidArg | flash-fuse-common.cpp:92-101 | false exactly when the length is not 12; true exactly for twelve hex digits; otherwise `sscanf` fails and the tool throws |
| CommonFuse.MacGet | flash-fuse-common.cpp:108-117 | the method returns the specification's text for the image |
| CommonFuse.MacIsFuseable | flash-fuse-common.cpp:102-107 | the method returns the specification's verdict for the image |
| CommonFuse.MacSet | flash-fuse-common.cpp:119-128 | the new image, trace and result are those of the specification |
| CommonFuse.MacSetLayout | flash-fuse-common.cpp:119-128 | a text that scans is written as two words, offset1 then offset2, with the octet layout of `LayoutWords` |
| CommonFuse.MacSetThenGet | flash-fuse-common.cpp:108-128 | `get` after `set` of a valid address returns it upper-cased |
| CommonFuse.MacFuseableIffBlank | flash-fuse-common.cpp:102-107 | `is_fuseable` ignores its argument and holds exactly when MAC0 and the low half of MAC1 are zero |
| CommonFuse.Get | flash-fuse-common.h:19-31 | the virtual `get` returns the specification's value |
| CommonFuse.IsFuseable | flash-fuse-common.h:19-31 | the virtual `is_fuseable` returns the specification's verdict |
| CommonFuse.Set | flash-fuse-common.h:19-31 | the virtual `set` leaves the image, trace and result the specification gives |
| CommonFuse.SetFrame | flash-fuse-common.cpp:77-128 | `set` keeps the image length, writes only the fuse's own words, and changes no byte outside them |
| CommonFuse.MacSetFrame | flash-fuse-common.cpp:119-128 | a MAC `set` writes only at offset1 and offset2 |
| CommonFuse.SetThenGet | flash-fuse-common.cpp:68-128 | for a fuse whose `set` round-trips, `get` after a successful `set` returns the argument |
| CommonFuse.SingleFlagExamples | test-flash-fuse.cpp:91-124 | the expected results of the "Single flag" sections: 0 reads `UNKNOWN`, 0x8 reads `A`, `A` is valid and `B` is not |
| CommonFuse.ExampleFlagsFind | test-flash-fuse.cpp:155-159 | the test's three-entry map finds `bit2` at 0x20 and `both` at 0x30 |
| CommonFuse.ExampleFind | test-flash-fuse.cpp:155-159 | the test's map finds whatever its initializer list holds |
| CommonFuse.FuseableExamples | test-flash-fuse.cpp:162-179 | the four expected `is_fuseable` outcomes, stated on the words the tests mean (see Left out) |
| FuseTable.BuiltWellFormed | flash-fuse-imx8mp.cpp:196-199 | a descriptor whose selectors lie in its mask and are distinct builds a well-formed `FlagFuse` |
| FuseTable.BuiltNameOf | flash-fuse-common.cpp:68-76 | on a built map, a value that only one surviving name holds reads as that name |
| FuseTable.BuiltNameOfNone | flash-fuse-common.cpp:68-76 | on a built map, a value that no surviving entry holds reads as `UNKNOWN` |
| FuseTable.BuiltContains | flash-fuse-common.cpp:60-63 | the built map contains exactly the names of the list |
| FuseTable.ZeroFirstName | flash-fuse-common.cpp:68-76 | a blank field reads as the table's first (zero) selector |
| FuseTable.SoundFlag | flash-fuse-imx8mp.cpp:196-199 | a sound descriptor builds a well-formed fuse whose blank field reads as its zero selector |
| FuseTable.NameValue | flash-fuse-common.cpp:68-76 | a name other than `UNKNOWN` that `get` returns holds exactly the masked word |
| FuseTable.SoundNameIff | flash-fuse-common.cpp:68-76 | `get` returns an entry's name exactly when the masked word equals its selector |
| FuseTable.BuiltAllows | flash-fuse-common.cpp:64-67 | `is_fuseable` holds exactly when the masked word lies within the requested selector |
| FuseTable.SetClearsOther | flash-fuse-common.cpp:77-87 | setting a fuse rewrites its whole word, so another fuse in that word with a disjoint mask then reads as its zero selector |
| FuseMain.RunMain | flash-fuse-main.cpp:83-128 | the dispatch leaves the outcome, image and trace that its specification gives |
| FuseMain.ExitCodes | flash-fuse-main.cpp:83-128 | the tool exits 0 or 1, prints a value, or aborts on an exception |
| FuseMain.EarlyExits | flash-fuse-main.cpp:83-97 | no operation, no `--fuse` or an unknown fuse exits 1 without a write |
| FuseMain.GetOnlyReads | flash-fuse-main.cpp:99-102 | `--get` prints the fused value and writes nothing |
| FuseMain.InvalidArgNoWrite | flash-fuse-main.cpp:104-107 | an invalid argument exits 1 without a write |
| FuseMain.AlreadyFusedNoWrite | flash-fuse-main.cpp:108-111 | a fused value equal to the argument exits 0 without a write |
| FuseMain.VerifyOverridesCommit | flash-fuse-main.cpp:113-116 | with `--verify`, a differing value exits 1 without a write, even with `--commit` |
| FuseMain.NotFuseableNoWrite | flash-fuse-main.cpp:118-122 | `--commit` over a value that is not fuseable exits 1 without a write |
| FuseMain.WritesOnlyBySet | flash-fuse-main.cpp:83-128 | a run that writes is a commit on a valid, differing and fuseable argument, and writes exactly what `set` writes |
| FuseMain.CommitSets | flash-fuse-main.cpp:118-125 | such a commit is exactly `set`, exiting 0 or aborting with its error |
| FuseMain.RunFrame | flash-fuse-main.cpp:83-128 | a run keeps the image length and changes only bytes inside the selected fuse's words |
| FuseMain.CommitIdempotent | flash-fuse-main.cpp:108-125 | repeating a successful commit of a round-tripping fuse exits 0 and writes nothing |
| FuseMain.TableFlagsRoundTrip | flash-fuse-main.cpp:93-97 | every table flag fuse of the three SoCs round-trips, except the i.MX8M Nano `BOOT_DEVICE` |
| FuseMain.Imx8mnSdpFuseable | flash-fuse-imx8mn.cpp:75-87 | over `FUSES`, `SDP` is a valid and fuseable i.MX8M Nano boot device |
| FuseMain.Imx8mnBootDeviceCommit | flash-fuse-imx8mn.cpp:75-87 | committing `SDP` over `FUSES` exits 0, writes the boot word, and it still reads `FUSES` |
| FuseMain.Imx8mnBootDeviceRecommits | flash-fuse-main.cpp:108-125 | so committing `SDP` again writes again: the commit is never seen as done |
| Imx8mp.OffsetLayout | flash-fuse-imx8mp.cpp:27-32 | `OFFSET` is word aligned, banks follow each other, and distinct (bank, word) pairs get distinct offsets |
| Imx8mp.ConstantValues | flash-fuse-imx8mp.cpp:34-48 | the register constants come to 0x0, 0x1c, 0x20, 0x24, 0x60 + 4i for the SRK words, and 0x90/0x94/0x98 |
| Imx8mp.AgreesWithImx8mn | flash-fuse-imx8mp.cpp:34-47 | the offsets shared with the i.MX8M Nano file are equal |
| Imx8mp.MacAddrLockSound | flash-fuse-imx8mp.cpp:57-63 | the entry lists its zero selector first, and its selectors are distinct and inside its mask |
| Imx8mp.UsbIdLockSound | flash-fuse-imx8mp.cpp:64-70 | the entry is sound, as above |
| Imx8mp.BtFuseSelSound | flash-fuse-imx8mp.cpp:84-88 | the entry is sound |
| Imx8mp.BootDeviceComputed | flash-fuse-imx8mp.cpp:106-119 | the `BIT`/`MASK` expressions come to 0x0 … 0xb000 under mask 0xf000 |
| Imx8mp.BootDeviceValuesDistinct | flash-fuse-imx8mp.cpp:106-119 | the `BOOT_DEVICE` selectors are distinct |
| Imx8mp.BootDeviceValuesInMask | flash-fuse-imx8mp.cpp:106-119 | the `BOOT_DEVICE` selectors lie inside 0xf000 |
| Imx8mp.BootDeviceSound | flash-fuse-imx8mp.cpp:106-119 | the entry is sound |
| Imx8mp.ForceBtFromFuseSound | flash-fuse-imx8mp.cpp:120-124 | the entry is sound |
| Imx8mp.BootEcspiPortSound | flash-fuse-imx8mp.cpp:125-130 | the entry is sound |
| Imx8mp.BootEcspiAddrSound | flash-fuse-imx8mp.cpp:131-135 | the entry is sound |
| Imx8mp.BootEcspiCsSound | flash-fuse-imx8mp.cpp:136-142 | the entry is sound |
| Imx8mp.ImgCntnSet1OffsetComputed | flash-fuse-imx8mp.cpp:143-156 | the selectors come to multiples of 0x80000 up to 0x500000 under mask 0x780000 |
| Imx8mp.ImgCntnSet1OffsetValuesDistinct | flash-fuse-imx8mp.cpp:143-156 | the selectors are distinct |
| Imx8mp.ImgCntnSet1OffsetValuesInMask | flash-fuse-imx8mp.cpp:143-156 | the selectors lie inside 0x780000 |
| Imx8mp.ImgCntnSet1OffsetSound | flash-fuse-imx8mp.cpp:143-156 | the entry is sound |
| Imx8mp.TableSound | flash-fuse-imx8mp.cpp:56-157 | every entry of `flag_fuses` is sound |
| Imx8mp.MakeFuseSrk | flash-fuse-imx8mp.cpp:190-195 | SRK is commented out, so `make_fuse("SRK")` is null |
| Imx8mp.MakeFuseCases | flash-fuse-imx8mp.cpp:184-202 | MAC and MAC2 at their fixed words; another name is a fuse exactly when the table lists it, and is then built from its entry |
| Imx8mp.MakeFuseFlags | flash-fuse-imx8mp.cpp:196-199 | every flag fuse `make_fuse` returns is well formed, and a blank word reads as a name |
| Imx8mn.SrkOffsets | flash-fuse-imx8mn.cpp:16-23 | the SRK words are 0x60 + 4i |
| Imx8mn.MacAddrLockSound | flash-fuse-imx8mn.cpp:28-34 | the entry is sound |
| Imx8mn.UsbIdLockSound | flash-fuse-imx8mn.cpp:35-41 | the entry is sound |
| Imx8mn.BootCfgLockSound | flash-fuse-imx8mn.cpp:42-48 | the entry is sound |
| Imx8mn.SrkLockSound | flash-fuse-imx8mn.cpp:49-53 | the entry is sound |
| Imx8mn.BtFuseSelSound | flash-fuse-imx8mn.cpp:54-58 | the entry is sound |
| Imx8mn.SjcDisableSound | flash-fuse-imx8mn.cpp:59-63 | the entry is sound |
| Imx8mn.JtagSmodeSound | flash-fuse-imx8mn.cpp:64-69 | the entry is sound |
| Imx8mn.SecConfigSound | flash-fuse-imx8mn.cpp:70-74 | the entry is sound |
| Imx8mn.BootDeviceZeroFirst | flash-fuse-imx8mn.cpp:75-87 | `BOOT_DEVICE` lists its zero selector first, although it is not sound |
| Imx8mn.BootEcspiPortSound | flash-fuse-imx8mn.cpp:88-93 | the entry is sound |
| Imx8mn.BootEcspiAddrSound | flash-fuse-imx8mn.cpp:94-98 | the entry is sound |
| Imx8mn.BootEcspiCsSound | flash-fuse-imx8mn.cpp:99-105 | the entry is sound |
| Imx8mn.TableSound | flash-fuse-imx8mn.cpp:27-106 | every entry lists its zero selector first, and every entry except `BOOT_DEVICE` is sound |
| Imx8mn.MakeFuseCases | flash-fuse-imx8mn.cpp:131-147 | MAC at 0x90/0x94, SRK at its eight words; another name is a fuse exactly when the table lists it |
| Imx8mn.MakeFuseFlags | flash-fuse-imx8mn.cpp:141-144 | every flag fuse returned except `BOOT_DEVICE` is well formed, and a blank word reads as a name |
| Imx8mn.MakeFuseBootDevice | flash-fuse-imx8mn.cpp:141-144 | `BOOT_DEVICE` is built from its table entry |
| Imx8mn.BootDeviceBitsOutside | flash-fuse-imx8mn.cpp:75-87 | every non-zero `BOOT_DEVICE` selector lies outside the mask 0xf000 |
| Imx8mn.BootDeviceOutsideMask | flash-fuse-imx8mn.cpp:75-87 | the same, stated on the built fuse |
| Imx8mn.BootDeviceGet | flash-fuse-imx8mn.cpp:75-87 | `get` reads `FUSES` when bits 12..15 are clear and `UNKNOWN` otherwise |
| Imx8mn.BootDeviceSetSdp | flash-fuse-imx8mn.cpp:75-87 | setting `SDP` writes the word 1, which then reads `FUSES` |
| Imx8mn.JtagSmodeFuseable | flash-fuse-imx8mn.cpp:64-69 | `SECURE` can be upgraded to `DISABLED`, but `DISABLED` cannot go back to `SECURE` |
| Imx8mn.LocksShareWord | flash-fuse-imx8mn.cpp:28-53 | the four lock fuses are sound, start with `NONE`, share word 0 and have disjoint masks |
| Imx8mn.LockSetClearsOthers | flash-fuse-imx8mn.cpp:28-53 | setting one lock rewrites word 0, so every other lock then reads `NONE` |
| Imx6dl.OffsetLayout | flash-fuse-imx6dl.cpp:27-32 | `OFFSET` (eight words a bank) is aligned, banks follow each other, and distinct pairs get distinct offsets |
| Imx6dl.ConstantValues | flash-fuse-imx6dl.cpp:34-46 | the register constants come to 0x0, 0x14, 0x18, 0x60 + 4i for the SRK words, and 0x88/0x8C |
| Imx6dl.MacLockSound | flash-fuse-imx6dl.cpp:55-61 | the entry is sound |
| Imx6dl.BtFuseSelSound | flash-fuse-imx6dl.cpp:62-66 | the entry is sound |
| Imx6dl.SjcDisableSound | flash-fuse-imx6dl.cpp:67-71 | the entry is sound |
| Imx6dl.SecDisableSound | flash-fuse-imx6dl.cpp:72-76 | the entry is sound |
| Imx6dl.DirBtDisSound | flash-fuse-imx6dl.cpp:77-81 | the entry is sound |
| Imx6dl.BootDeviceSound | flash-fuse-imx6dl.cpp:84-92 | the entry is sound |
| Imx6dl.BootMmcPortSound | flash-fuse-imx6dl.cpp:93-99 | the entry is sound |
| Imx6dl.BootMmcWidthSound | flash-fuse-imx6dl.cpp:100-107 | the entry's list is sound (its names are not distinct) |
| Imx6dl.TableSound | flash-fuse-imx6dl.cpp:54-108 | every entry of `flag_fuses` is sound |
| Imx6dl.MakeFuseCases | flash-fuse-imx6dl.cpp:133-147 | MAC at 0x88/0x8C, SRK at its eight words; another name is a fuse exactly when the table lists it |
| Imx6dl.MakeFuseFlags | flash-fuse-imx6dl.cpp:141-144 | every flag fuse returned is well formed, and a blank word reads as a name |
| Imx6dl.BootDeviceComputed | flash-fuse-imx6dl.cpp:84-92 | the mask is 0xf8 and the selectors come to the listed values |
| Imx6dl.BootDeviceFinds | flash-fuse-imx6dl.cpp:84-92 | every boot device name is found with its own selector |
| Imx6dl.BootDeviceGet | flash-fuse-imx6dl.cpp:84-92 | `get` returns a boot device's name exactly when bits 3..7 equal its selector |
| Imx6dl.BootMmcWidthComputed | flash-fuse-imx6dl.cpp:100-107 | the mask is 0xE000 and the selectors come to the listed values |
| Imx6dl.BootMmcWidthFirstWins | flash-fuse-imx6dl.cpp:100-107 | the first `4-BIT` (0x2000) is the one found; the list's fourth entry is `4-BIT` at 0xA000 |
| Imx6dl.BootMmcWidthFourBit | flash-fuse-imx6dl.cpp:100-107 | the built fuse maps `4-BIT` to 0x2000, and 0x2000 reads `4-BIT` |
| Imx6dl.BootMmcWidthDropped | flash-fuse-imx6dl.cpp:100-107 | the word 0xA000 reads `UNKNOWN` |
| Imx8mm.OneZeroText | flash-fuse-imx8mm.cpp:81-86 | `get` prints only `1` or `0`, and `1` exactly when every bit of the mask is set in the word |
| Imx8mm.OneZeroWord | flash-fuse-imx8mm.cpp:87-89 | the word `set` writes has no bit outside the mask, and for a non-zero mask it reads back through `get` as the `1` or `0` written |
| Imx8mm.Get | flash-fuse-imx8mm.cpp:81-139 | the method returns the specification's value |
| Imx8mm.IsFused | flash-fuse-imx8mm.cpp:77-127 | the method returns the specification's verdict |
| Imx8mm.Set | flash-fuse-imx8mm.cpp:87-154 | the new image, trace and result are those of the specification |
| Imx8mm.OneZeroSetOverwrites | flash-fuse-imx8mm.cpp:87-97 | `set` writes one word at the offset itself, replacing it by the mask or 0, and nothing else |
| Imx8mm.OneZeroSetThenGet | flash-fuse-imx8mm.cpp:81-97 | `get` after `set` of `1` or `0` returns it |
| Imx8mm.FuseMacIsMacFuse | flash-fuse-imx8mm.cpp:129-154 | `FuseMAC` reads and writes as the common `MACFuse`, at bytes 0x90 and 0x94 |
| Imx8mm.MacSetThenGet | flash-fuse-imx8mm.cpp:129-154 | `get` after `set` of a valid address returns it upper-cased |
| Imx8mm.MacIsFusedIff | flash-fuse-imx8mm.cpp:122-127 | `is_fused` holds exactly when a MAC0 byte or a low MAC1 byte is non-zero |
| Imx8mm.FormatExamples | test-imx8mm.py:50-82 | the tests' bytes print as `001122334455` and `FF1122334455` |
| Imx8mm.ScanExample | test-imx8mm.py:53 | `001122334455` scans to the bytes 00 11 22 33 44 55 |
| Imx8mm.MacSetExample | test-imx8mm.py:50-56 | burning `001122334455` writes 55 44 33 22 at 0x90 and 11 00 00 00 at 0x94 |
| Imx8mm.MacGetExample | test-imx8mm.py:77-82 | those words, with FF in MAC1 byte 1, read `FF1122334455` |
| Imx8mm.RunMain | flash-fuse-imx8mm.cpp:258-303 | `main` leaves the outcome, image and trace that its specification gives |
| Imx8mm.GetOnlyReads | flash-fuse-imx8mm.cpp:274-277 | `--get` prints the value and writes nothing |
| Imx8mm.EarlyExits | flash-fuse-imx8mm.cpp:258-272 | no operation or a name other than `MAC`/`LOCK_MAC` exits 1 without a write |
| Imx8mm.InvalidArgNoWrite | flash-fuse-imx8mm.cpp:279-282 | an invalid argument exits 1 without a write |
| Imx8mm.LockMacSelectors | flash-fuse-imx8mm.cpp:73-86 | `LOCK_MAC` rejects `WP` and `NONE`, so committing `WP` exits 1 without a write, and `--get` never prints `NONE` or `WP` |
| Imx8mm.AlreadyFusedNoWrite | flash-fuse-imx8mm.cpp:283-286 | a value equal to the argument exits 0 without a write |
| Imx8mm.VerifyNoWrite | flash-fuse-imx8mm.cpp:288-291 | `--verify` with a differing value exits 1 without a write |
| Imx8mm.FusedRefused | flash-fuse-imx8mm.cpp:293-297 | `--commit` over a fused value exits 1 without a write |
| Imx8mm.WritesIffSet | flash-fuse-imx8mm.cpp:258-303 | a run writes exactly when it is a commit of a valid, differing argument over an unfused value, and then writes what `set` writes |
| Imx8mm.NeverSetsZero | flash-fuse-imx8mm.cpp:293-299 | a `LOCK_MAC` run that writes was asked for `1`, and on success leaves 0x4000 in word 0 |
| Imx8mm.RunFrame | flash-fuse-imx8mm.cpp:258-303 | a run changes only bytes 0..3 (`LOCK_MAC`) or 0x90..0x97 (`MAC`) |
| Imx8mm.CommitIdempotent | flash-fuse-imx8mm.cpp:283-299 | repeating a successful commit (of an upper-case address, for `MAC`) exits 0 and writes nothing |
| PyInt.And | flash-fuse-imx.py:22 | `a & b` on non-negative integers is at most either operand |
| PyInt.AndBit | flash-fuse-imx.py:22 | a bit of `a & b` is set exactly when it is set in both |
| PyInt.AndCovers | flash-fuse-imx.py:22 | `a & m == m` exactly when every bit of m is set in a |
| PyInt.AndMeets | flash-fuse-imx.py:92 | `a & m` is non-zero exactly when a and m share a set bit |
| PyInt.SingleBit | flash-fuse-imx.py:63 | `a & 2^j == 2^j` exactly when bit j of a is set |
| PyInt.AndSelf | flash-fuse-imx.py:22-24 | `m & m == m` |
| PyText.HexVal | flash-fuse-imx.py:12 | the value of n hex digits is below 16^n |
| PyText.Digits | flash-fuse-imx.py:16 | `hex` prints at least one lower-case hex digit |
| PyText.Hex08 | flash-fuse-imx.py:83-84 | `:08x` prints at least eight characters |
| PyText.Hex0x08 | flash-fuse-imx.py:68 | `#010x` prints at least ten characters |
| PyText.HexValDigits | flash-fuse-imx.py:16 | the digits `hex` prints read back as the value |
| PyText.HexValPad | flash-fuse-imx.py:83-84 | zero padding does not change the value |
| PyText.PadDigits | flash-fuse-imx.py:83-84 | a value below 16^n pads to exactly its n-digit spelling |
| PyText.StripStart | flash-fuse-imx.py:71 | `lstrip` leaves a suffix that starts with no stripped character |
| PyText.StripEnd | flash-fuse-imx.py:71 | `rstrip` leaves a prefix that ends with no stripped character |
| PyText.Strip | flash-fuse-imx.py:71 | `strip` leaves text that starts and ends with no stripped character |
| PyText.StripTrailing | flash-fuse-imx.py:71 | stripping text plus trailing stripped characters gives the text |
| PyText.ParseInt16 | flash-fuse-imx.py:12 | when `int(text, 16)` succeeds, its value is that of a non-empty run of hex digits |
| PyText.ParseBody | flash-fuse-imx.py:12 | surrounding whitespace is ignored and the hex body is read |
| PyText.ParsePrefixed | flash-fuse-imx.py:96-97 | `int('0x' + digits, 16)` is the value of the digits |
| PyText.WrittenReadsBack | flash-fuse-imx.py:10-16 | what `write_fuse` writes (`hex(v)` and a newline), `read_fuse` reads back as v |
| PyText.ParseHex0x08 | flash-fuse-imx.py:68-71 | `int` reads the `#010x` spelling back as the value |
| PyText.Split | flash-fuse-imx.py:95 | `split` gives at least one piece |
| PyText.Remove | flash-fuse-imx.py:81 | `replace(c, '')` leaves no c |
| PyText.JoinSplit | flash-fuse-imx.py:95 | joining the pieces of a split gives the text back |
| PyText.SplitPieces | flash-fuse-imx.py:95 | no piece of a split holds the separator |
| PyText.SplitJoin | flash-fuse-imx.py:86-95 | splitting a join of separator-free parts gives the parts back |
| PyText.RemoveJoin | flash-fuse-imx.py:81-87 | removing the separators from a join concatenates the parts |
| ImxPy.FslOtp.ReadFuse | flash-fuse-imx.py:10-12 | the register's value, or the error of a missing file |
| ImxPy.FslOtp.WriteFuse | flash-fuse-imx.py:14-16 | the register now holds the value, and the write is logged |
| ImxPy.MacFields | flash-fuse-imx.py:86 | `get` cuts six fields; which digits they hold is `ImxPyMac.FieldsOfWords` and `ImxPyMac.MacGetDigits` |
| ImxPy.SrkRead | flash-fuse-imx.py:64-68 | reading the SRK words yields one value per word read |
| ImxPy.SrkReadFails | flash-fuse-imx.py:64-68 | once an SRK read fails, the later words are not read |
| ImxPy.SrkTexts | flash-fuse-imx.py:68 | one `#010x` text per SRK word, and `int(_, 16)` reads each text back as its word |
| ImxPy.ParseFields | flash-fuse-imx.py:71 | one integer per field; that the printed SRK words parse back is `ImxPyProps.ParseSrkTexts` |
| ImxPy.SrkWrites | flash-fuse-imx.py:74-76 | a blow of eight words is nine writes; their registers, values and order are `ImxPyProps.SrkBlowShape` |
| ImxPy.Slice | flash-fuse-imx.py:95-97 | a Python slice within bounds is the sequence slice |
| ImxPy.MacGet | flash-fuse-imx.py:82-87 | the method returns the specification's text |
| ImxPy.SrkGet | flash-fuse-imx.py:64-69 | the method returns the specification's text |
| ImxPy.Get | flash-fuse-imx.py:18-88 | `get` of any fuse returns the specification's value (`None` for a mask fuse) |
| ImxPy.IsFused | flash-fuse-imx.py:18-81 | `is_fused` of any fuse returns the specification's verdict |
| ImxPy.SrkWrite | flash-fuse-imx.py:74-76 | the eight SRK words and then the lock word are written, in order |
| ImxPy.SrkBlow | flash-fuse-imx.py:70-76 | the result, registers and log are those of the specification |
| ImxPy.SrkCount | flash-fuse-imx.py:72-76 | the length check and the writes are those of the specification |
| ImxPy.MacWrite | flash-fuse-imx.py:95-98 | the MAC writes, in order, are those of the specification |
| ImxPy.MacBlow | flash-fuse-imx.py:89-98 | the result, registers and log are those of the specification |
| ImxPy.Blow | flash-fuse-imx.py:18-98 | `blow` of any fuse leaves what the specification gives |
| ImxPy.RunMain | flash-fuse-imx.py:193-220 | `__main__` leaves the ending, registers and log its specification gives |
| ImxPyMac.ParseBare | flash-fuse-imx.py:81 | `int` of bare hex digits is their value |
| ImxPyMac.Hex08Word | flash-fuse-imx.py:83-84 | a 32-bit value prints as eight lower-case hex digits of that value |
| ImxPyMac.MacGetDigits | flash-fuse-imx.py:81-87 | removing the colons from `get` leaves the low four digits of MAC1 and then the eight of MAC0 |
| ImxPyMac.MacDigitsValue | flash-fuse-imx.py:81-87 | those digits read as MAC1's low half times 2^32 plus MAC0 |
| ImxPyMac.MacFusedValue | flash-fuse-imx.py:80-88 | `get` is the six fields joined by colons, and `is_fused` holds exactly when MAC0 or the low half of MAC1 is non-zero |
| ImxPyMac.MacGetOf | flash-fuse-imx.py:82-87 | with both registers present, `get` joins the six fields with colons |
| ImxPyMac.MacChecksFirst | flash-fuse-imx.py:89-93 | `blow` writes only after the length check and the lock check pass; each failing check raises its own error and writes nothing |
| ImxPyMac.MacWritesShape | flash-fuse-imx.py:95-98 | the writes are none, MAC0 alone, or MAC0, MAC1 and the lock mask; MAC0 alone means the MAC1 text did not parse |
| ImxPyMac.MacBlowShape | flash-fuse-imx.py:89-98 | the same, for the whole `blow` |
| ImxPyMac.JoinedSplit | flash-fuse-imx.py:90-95 | six two-character fields joined by colons split back into them, and hold twelve digits |
| ImxPyMac.JoinedHalves | flash-fuse-imx.py:96-97 | the texts converted for MAC0 and MAC1 are `0x` and fields 2..5, and `0x` and fields 0..1 |
| ImxPyMac.MacTextSplits | flash-fuse-imx.py:90-97 | the colon spelling of six octets splits into their pairs and gives those halves |
| ImxPyMac.MacHalvesValues | flash-fuse-imx.py:96-97 | the halves read as the two words of the common C++ MAC layout |
| ImxPyMac.MacWritesText | flash-fuse-imx.py:95-98 | for six octets spelled with colons, the writes are MAC0 and MAC1 in the C++ layout and then the lock mask |
| ImxPyMac.MacBlowText | flash-fuse-imx.py:89-98 | on an unlocked MAC, `blow` of that spelling succeeds with those writes |
| ImxPyMac.Mac0Prints | flash-fuse-imx.py:83 | the MAC0 word prints as the four octet pairs |
| ImxPyMac.Mac1Prints | flash-fuse-imx.py:84 | the MAC1 word prints as `0000` and the two octet pairs |
| ImxPyMac.RegsAfterMac | flash-fuse-imx.py:95-98 | after the writes, MAC0, MAC1 and the lock hold the written values |
| ImxPyMac.FieldsOfWords | flash-fuse-imx.py:83-86 | the fields `get` cuts from those words are the octet pairs |
| ImxPyMac.MacGetAfter | flash-fuse-imx.py:82-98 | `get` after the writes returns the spelling written |
| ImxPyMac.WordsZero | flash-fuse-imx.py:80-81 | the written words are non-zero exactly when some octet is |
| ImxPyMac.MacFusedAfter | flash-fuse-imx.py:80-98 | after the writes, `is_fused` holds exactly when some octet is non-zero |
| ImxPyMac.MacRoundTrip | flash-fuse-imx.py:82-98 | on an unlocked MAC, `blow` then `get` returns the spelling blown |
| ImxPyMac.MacRecommit | flash-fuse-imx.py:204-212 | re-running with the same spelling over a non-zero blown MAC exits 0 without a write |
| ImxPyMac.MacZeroRecommit | flash-fuse-imx.py:89-93 | after blowing the all-zero address, a commit of it raises the locked error |
| ImxPyMac.MacOtherSpelling | flash-fuse-imx.py:204-209 | any other spelling of a blown MAC, upper case included, exits 1 without a write |
| ImxPyMac.MacExample | test.py:77-84 | burning `00:11:22:33:44:55` writes 0x22334455, 0x11 and 0x300, and reads back the same text |
| ImxPyMac.ExamplePairs | test.py:77-84 | the example octets print as the pairs `00` … `55` |
| ImxPyMac.ExampleText | test.py:77-84 | the example octets spell `00:11:22:33:44:55` |
| ImxPyMac.ExampleWords | test.py:77-84 | their writes are 0x22334455 to MAC0, 0x11 to MAC1 and 0x300 to the lock word |
| ImxPyMac.HalfWrites | flash-fuse-imx.py:95-97 | when the MAC1 half does not parse, MAC0 has already been written |
| ImxPyMac.MacHalfWritten | flash-fuse-imx.py:89-98 | so `blow` raises after one write |
| ImxPyProps.ExitCodes | flash-fuse-imx.py:193-220 | the tool exits with status 0 or 1 |
| ImxPyProps.DecideSucceeds | flash-fuse-imx.py:204-220 | status 0 exactly when the fuse is fused and its value is empty or equal to the argument, or it is unfused, committed without `--verify` and `blow` succeeds |
| ImxPyProps.WritesOnlyByBlow | flash-fuse-imx.py:214-216 | a run that writes was a commit without `--verify` over an unfused fuse, and wrote what `blow` writes |
| ImxPyProps.FusedWithoutValue | flash-fuse-imx.py:204-212 | a fused fuse without a value exits 0 without a write |
| ImxPyProps.MaskFusedExitsZero | flash-fuse-imx.py:204-212 | a fused mask fuse exits 0 whatever the argument and flags |
| ImxPyProps.FusedDiffers | flash-fuse-imx.py:206-209 | a fused value that differs from the argument exits 1 without a write |
| ImxPyProps.FusedEquals | flash-fuse-imx.py:204-212 | a fused value equal to the argument exits 0 without a write |
| ImxPyProps.UnfusedNotCommitted | flash-fuse-imx.py:219-220 | an unfused fuse without `--commit`, or with `--verify`, exits 1 without a write |
| ImxPyProps.UnfusedCommitted | flash-fuse-imx.py:214-217 | a commit writes what `blow` writes and exits 0 exactly when `blow` succeeds |
| ImxPyProps.ObjMapArgs | flash-fuse-imx.py:100-145 | exactly MAC and SRK take an argument, and every other entry is a mask fuse |
| ImxPyProps.EarlyExits | flash-fuse-imx.py:193-201 | no `--fuse` exits 1; an unknown name raises `KeyError`, exits 1 and writes nothing |
| ImxPyProps.LowerCaseMacUnknown | flash-fuse-imx.py:100-145 | `mac` in lower case is not a key |
| ImxPyProps.ArgumentIgnored | flash-fuse-imx.py:197-199 | for a fuse without an argument, the positional argument does not affect the run |
| ImxPyProps.MaskFusedIff | flash-fuse-imx.py:21-22 | a mask fuse is fused exactly when every mask bit is set |
| ImxPyProps.MaskBlowThenFused | flash-fuse-imx.py:21-24 | `blow` writes the mask alone, which then reads as fused |
| ImxPyProps.SingleBitFuses | flash-fuse-imx.py:18-58 | each single-bit class is fused exactly when its bit of CFG4 or CFG5 is set |
| ImxPyProps.SjcDisableCommit | test.py:34-37 | committing `CFG5_SJC_DISABLE` over a blank CFG5 exits 0 and writes 0x00100000 |
| ImxPyProps.SrkFusedIff | flash-fuse-imx.py:62-63 | SRK is fused exactly when bit 14 of the lock word is set |
| ImxPyProps.SrkBlowShape | flash-fuse-imx.py:70-76 | `blow` succeeds exactly when the text parses into eight values, and then writes them to SRK0..7 and the lock mask |
| ImxPyProps.SrkRegistersDistinct | flash-fuse-imx.py:67-76 | the eight SRK register names are distinct and differ from the lock register |
| ImxPyProps.SrkReadBack | flash-fuse-imx.py:64-76 | reading the SRK words after the writes gives the values written |
| ImxPyProps.ParseSrkTexts | flash-fuse-imx.py:68-71 | parsing the printed SRK words gives the values back |
| ImxPyProps.SrkTextStrips | flash-fuse-imx.py:69-71 | no field holds a comma, and the text has no newline to strip |
| ImxPyProps.SrkParseText | flash-fuse-imx.py:64-71 | the text `get` prints parses into the eight values |
| ImxPyProps.SrkBlowText | flash-fuse-imx.py:69-76 | `blow` of that text succeeds with the nine writes |
| ImxPyProps.SrkAfterBlow | flash-fuse-imx.py:62-76 | after the writes SRK is fused, and `get` prints the text |
| ImxPyProps.SrkRoundTrip | flash-fuse-imx.py:62-76 | `blow` of the text `get` prints, then `get`, returns the same text |
| ImxPyProps.SrkRecommit | flash-fuse-imx.py:204-212 | re-running with the text of a blown SRK exits 0 without a write |
| ImxPyProps.SrkOtherSpelling | flash-fuse-imx.py:204-209 | any other text for a blown SRK exits 1 without a write |
| ImxPyProps.SrkTextNotEmpty | flash-fuse-imx.py:205-206 | the SRK text is never empty, so `if val:` checks it |

## Left out

- Command-line parsing: the argument loop of `flash-fuse-main.cpp` (lines 41-81) and of `flash-fuse-imx8mm.cpp` (lines 216-256), and `argparse` in the Python tool. Each `main` is modelled from the parsed request on.
- Console text: `print_usage`, `available_fuses`, `to_string`, the help text and every message on stdout and stderr. `--get` is modelled as the value it prints.
- The nvmem path and its default: the model works on the image itself. `open`, `lseek`, `read`, `write`, `close` and `errno` failures become one I/O failure: a word that does not fit in the image.
- `Nvmem.Put`: a write whose word does not fit fails and changes nothing. On a regular file, `pwrite` past the end grows the file instead. On a fixed-size device, a write that straddles the end may land its first bytes before the C++ code throws. Neither is modelled.
- `ImxPy.FslOtp.WriteFuse`: a write never fails, and it creates a register that is missing. On the real `fsl_otp` directory, `open(..., 'w')` raises for a missing or read-only attribute. That failure is not modelled.
- Exception messages: a C++ exception ends the model as an abort carrying the error kind, not the message.
- `SRKFuse` and `MAC2Fuse`: their method bodies are not part of this model. `make_fuse` still returns them, and any operation on them gives a not-modelled error.
- Commented-out code: the commented-out i.MX8M Plus table entries and SRK branch are not part of the program, and are absent here too.
- `CommonFuse.FuseableExamples`: `test-flash-fuse.cpp` writes its words through `TmpFile` at byte position `offset`, while `FlagFuse` seeks to `offset * 4`. For the offsets 4 and 8 those differ, so the example is stated on the masked words the test means, not through the file.
- `sscanf` corner cases: leading white space, signs and field-width subtleties are not modelled. A text is accepted exactly when its first twelve characters are hex digits. `valid_arg` has already required the length to be twelve.
- The Python register files are a map from name to the integer the file holds, not their text. `PyText.WrittenReadsBack` justifies this. `int()` accepts signs, underscores and Unicode digits and white space. The model covers ASCII hex digits, an optional `0x`/`0X` prefix and the ASCII characters `str.isspace` accepts (space, tab, line feed, carriage return, 0x0b, 0x0c and 0x1c..0x1f). Non-ASCII white space is not modelled.
- `fuse_path` and `--fuse-path`: the directory is the store given to each method.
- Python `print` output and the `fuse_arg_str` lambda: not modelled.
- The pytest and Catch2 suites as programs: the model states only the tests' expected results.
- `test_lock_mac` in `test-imx8mm.py` (lines 98-142) expects `LOCK_MAC` to accept `WP` and `NONE` and `--get` to print them. `flash-fuse-imx8mm.cpp` (lines 73-86) accepts and prints only `1` and `0`. The model follows the code, and `Imx8mm.LockMacSelectors` states that these test steps fail: committing `WP` exits 1 without a write.
- `test.py` uses the key `mac`, which `fuse_obj_map` does not hold. `ImxPyProps.LowerCaseMacUnknown` states this, and `ImxPyMac.MacExample` states the expected writes for `MAC`.
- `write_fuse` writes to an `fsl_otp` file, and the hardware burns only the new one bits. The model treats a write as replacing the register's value, which is what the text file does.
- `ImxPyMac.MacFusedValue`: stated only for registers below 2^32, the width of an OTP word. A wider value would print more than eight digits, and the fields `get` cuts would move.
