/**
 * What flash-fuse-imx.py promises: the decision of `__main__`, the single-mask
 * fuses, the SRK words with the lock written last, and the MAC address with its
 * lock check, write order and round trip, and its agreement with the C++ layout.
 */
module ImxPyProps {
  import opened Wrappers
  import opened PyInt
  import opened PyText
  import opened HexText
  import opened ImxPy

  // ----- the decision of __main__ -----

  /** The process exits 0 or 1. */
  lemma ExitCodes(regs: Regs, req: Request)
    ensures Status(MainSpec(regs, req).ending) in {0, 1}
  {}

  /**
   * Exit status 0 means one of two things: the fuse was already fused and its value
   * (when it prints one) equals the argument, or it was not fused and `blow` ran
   * without raising under --commit without --verify.
   */
  lemma DecideSucceeds(regs: Regs, f: Fuse, arg: Option<string>, commit: bool, verify: bool)
    ensures Status(Decide(regs, f, arg, commit, verify).ending) == 0 <==>
      (IsFusedSpec(regs, f) == Ok(true) && GetSpec(regs, f).Ok?
        && (!Truthy(GetSpec(regs, f).value) || GetSpec(regs, f).value == arg))
      || (IsFusedSpec(regs, f) == Ok(false) && commit && !verify && BlowSpec(regs, f, arg).result.Ok?)
  {}

  /** Only `blow` writes, only under --commit without --verify, and only when the fuse is not fused. */
  lemma WritesOnlyByBlow(regs: Regs, f: Fuse, arg: Option<string>, commit: bool, verify: bool)
    requires Decide(regs, f, arg, commit, verify).writes != []
    ensures commit && !verify && IsFusedSpec(regs, f) == Ok(false)
    ensures Decide(regs, f, arg, commit, verify).writes == BlowSpec(regs, f, arg).writes
  {}

  /** A fused target with no value to compare reports "already fused", exit 0, whatever the flags say. */
  lemma FusedWithoutValue(regs: Regs, f: Fuse, arg: Option<string>, commit: bool, verify: bool)
    requires IsFusedSpec(regs, f) == Ok(true) && GetSpec(regs, f).Ok? && !Truthy(GetSpec(regs, f).value)
    ensures Decide(regs, f, arg, commit, verify) == Run(Exited(0), [])
  {}

  /** A fused single-mask fuse exits 0 without a write, whatever the flags say. */
  lemma MaskFusedExitsZero(regs: Regs, register: string, mask: nat, arg: Option<string>, commit: bool, verify: bool)
    requires IsFusedSpec(regs, SingleMask(register, mask)) == Ok(true)
    ensures Decide(regs, SingleMask(register, mask), arg, commit, verify) == Run(Exited(0), [])
  {
    FusedWithoutValue(regs, SingleMask(register, mask), arg, commit, verify);
  }

  /** A fused target whose value differs from the argument: exit 1, no write. */
  lemma FusedDiffers(regs: Regs, f: Fuse, arg: Option<string>, commit: bool, verify: bool, val: string)
    requires IsFusedSpec(regs, f) == Ok(true) && GetSpec(regs, f) == Ok(Some(val))
    requires val != "" && Some(val) != arg
    ensures Decide(regs, f, arg, commit, verify) == Run(Exited(1), [])
  {}

  /** A fused target whose value equals the argument: exit 0, no write, whatever the flags say. */
  lemma FusedEquals(regs: Regs, f: Fuse, commit: bool, verify: bool, val: string)
    requires IsFusedSpec(regs, f) == Ok(true) && GetSpec(regs, f) == Ok(Some(val))
    ensures Decide(regs, f, Some(val), commit, verify) == Run(Exited(0), [])
  {}

  /** An unfused target without --commit, or with --verify, exits 1 and is not written. */
  lemma UnfusedNotCommitted(regs: Regs, f: Fuse, arg: Option<string>, commit: bool, verify: bool)
    requires IsFusedSpec(regs, f) == Ok(false) && !(commit && !verify)
    ensures Decide(regs, f, arg, commit, verify) == Run(Exited(1), [])
  {}

  /** Under --commit without --verify an unfused target is blown, once. */
  lemma UnfusedCommitted(regs: Regs, f: Fuse, arg: Option<string>, verify: bool)
    requires IsFusedSpec(regs, f) == Ok(false) && !verify
    ensures Decide(regs, f, arg, true, verify).writes == BlowSpec(regs, f, arg).writes
    ensures Status(Decide(regs, f, arg, true, verify).ending) == 0 <==> BlowSpec(regs, f, arg).result.Ok?
  {}

  // ----- fuse_obj_map -----

  /** Exactly MAC and SRK take an argument; every other name is a single-mask fuse. */
  lemma ObjMapArgs(name: string)
    requires name in FuseObjMap
    ensures FuseObjMap[name].arg <==> name == "MAC" || name == "SRK"
    ensures FuseObjMap[name].obj.SingleMask? <==> !FuseObjMap[name].arg
    ensures name == "MAC" ==> FuseObjMap[name].obj == EthernetMac
    ensures name == "SRK" ==> FuseObjMap[name].obj == Srk
  {}

  /** Without --fuse the process exits 1; a name outside the map raises KeyError; neither writes. */
  lemma EarlyExits(regs: Regs, req: Request)
    ensures req.fuse.None? ==> MainSpec(regs, req) == Run(Exited(1), [])
    ensures req.fuse.Some? && req.fuse.value !in FuseObjMap ==>
      MainSpec(regs, req).writes == [] && Status(MainSpec(regs, req).ending) == 1
  {}

  /** Names are case-sensitive: "mac" is not a key. */
  lemma LowerCaseMacUnknown()
    ensures "mac" !in FuseObjMap
  {}

  /** A fuse that takes no argument ignores the positional argument. */
  lemma ArgumentIgnored(regs: Regs, req: Request, other: Option<string>)
    requires req.fuse.Some? && req.fuse.value in FuseObjMap && !FuseObjMap[req.fuse.value].arg
    ensures MainSpec(regs, req) == MainSpec(regs, req.(fuseArgument := other))
  {}

  // ----- single-mask fuses -----

  /** `is_fused` holds exactly when every bit of the mask is set in the register. */
  lemma MaskFusedIff(regs: Regs, register: string, mask: nat)
    requires register in regs
    ensures IsFusedSpec(regs, SingleMask(register, mask)) == Ok(Covers(regs[register], mask))
  {
    AndCovers(regs[register], mask);
  }

  /** `blow` writes exactly the mask (the other bits of the word read as zero), and then the fuse is fused. */
  lemma MaskBlowThenFused(regs: Regs, register: string, mask: nat, arg: Option<string>)
    ensures BlowSpec(regs, SingleMask(register, mask), arg) == Blown(Ok(()), [(register, mask)])
    ensures Apply(regs, [(register, mask)]) == regs[register := mask]
    ensures IsFusedSpec(regs[register := mask], SingleMask(register, mask)) == Ok(true)
  {
    assert [(register, mask)][..0] == [];
    AndSelf(mask);
  }

  /** The single-bit fuses of the table: fused exactly when that one bit is set. */
  lemma SingleBitFuses(regs: Regs)
    requires Cfg4 in regs && Cfg5 in regs
    ensures IsFusedSpec(regs, DirBtDis) == Ok(BitOf(regs[Cfg5], 3))
    ensures IsFusedSpec(regs, BtFuseSel) == Ok(BitOf(regs[Cfg5], 4))
    ensures IsFusedSpec(regs, SjcDisable) == Ok(BitOf(regs[Cfg5], 20))
    ensures IsFusedSpec(regs, SecConfig) == Ok(BitOf(regs[Cfg5], 1))
    ensures IsFusedSpec(regs, EmmcSdhc3) == Ok(BitOf(regs[Cfg4], 12))
    ensures IsFusedSpec(regs, Emmc8Bit) == Ok(BitOf(regs[Cfg4], 14))
    ensures IsFusedSpec(regs, SerialRomSpi2) == Ok(BitOf(regs[Cfg4], 24))
  {
    assert Pow2(1) == 0x2 && Pow2(3) == 0x8 && Pow2(4) == 0x10;
    assert Pow2(12) == 0x1000 && Pow2(14) == 0x4000;
    assert Pow2(20) == 0x00100000 && Pow2(24) == 0x01000000;
    SingleBit(regs[Cfg5], 3);
    SingleBit(regs[Cfg5], 4);
    SingleBit(regs[Cfg5], 20);
    SingleBit(regs[Cfg5], 1);
    SingleBit(regs[Cfg4], 12);
    SingleBit(regs[Cfg4], 14);
    SingleBit(regs[Cfg4], 24);
  }

  /** Burning CFG5_SJC_DISABLE on a clear CFG5: exit 0, and CFG5 then holds 0x00100000. */
  lemma SjcDisableCommit(regs: Regs, arg: Option<string>)
    requires Cfg5 in regs && regs[Cfg5] == 0
    ensures MainSpec(regs, Request(Some("CFG5_SJC_DISABLE"), arg, true, false))
         == Run(Exited(0), [(Cfg5, 0x00100000)])
  {
    assert FuseObjMap["CFG5_SJC_DISABLE"] == Entry(SjcDisable, false);
    assert And(0, 0x00100000) == 0;
  }

  // ----- SRK -----

  /** `Srk.is_fused` holds exactly when bit 14 of the lock word is set. */
  lemma SrkFusedIff(regs: Regs)
    requires Lock in regs
    ensures IsFusedSpec(regs, Srk) == Ok(BitOf(regs[Lock], 14))
  {
    assert Pow2(14) == SrkLockMask;
    SingleBit(regs[Lock], 14);
  }

  /**
   * `Srk.blow` writes only after every field parsed and the count is eight; it then
   * writes SRK0 .. SRK7 with the parsed words, in order, and the lock word last.
   */
  lemma SrkBlowShape(arg: Option<string>)
    ensures SrkBlowSpec(arg).result.Ok? <==> SrkBlowSpec(arg).writes != []
    ensures SrkBlowSpec(arg).result.Ok? <==>
      arg.Some? && SrkParse(arg.value).Ok? && |SrkParse(arg.value).value| == 8
    ensures SrkBlowSpec(arg).result.Ok? ==>
      var ws := SrkBlowSpec(arg).writes;
      |ws| == 9 && ws[8] == (Lock, SrkLockMask)
      && forall i :: 0 <= i < 8 ==> ws[i] == (SrkRegister(i), SrkParse(arg.value).value[i])
  {}

  /** The lock word is not an SRK register, and the SRK registers are distinct. */
  lemma SrkRegistersDistinct(i: nat, j: nat)
    requires i < 8 && j < 8
    ensures SrkRegister(i) != Lock
    ensures SrkRegister(i) == SrkRegister(j) <==> i == j
  {
    assert SrkRegister(i)[9] == 'S' && Lock[9] == 'L';
    if i != j {
      assert SrkRegister(i)[12] != SrkRegister(j)[12];
    }
  }

  /** The last write to a register decides what it holds. */
  lemma {:induction false} ApplyLast(regs: Regs, ws: Writes, k: int)
    requires 0 <= k < |ws|
    requires forall j :: k < j < |ws| ==> ws[j].0 != ws[k].0
    ensures ws[k].0 in Apply(regs, ws) && Apply(regs, ws)[ws[k].0] == ws[k].1
    decreases |ws|
  {
    if k < |ws| - 1 {
      ApplyLast(regs, ws[..|ws| - 1], k);
    }
  }

  /** After the writes of a successful `Srk.blow`, SRK0 .. SRK(n-1) read back as the words written. */
  lemma {:induction false} SrkReadBack(regs: Regs, vals: seq<nat>, n: nat)
    requires |vals| == 8 && n <= 8
    ensures SrkRead(Apply(regs, SrkWrites(vals)), n) == Ok(vals[..n])
  {
    if n > 0 {
      SrkReadBack(regs, vals, n - 1);
      var ws := SrkWrites(vals);
      forall j | n - 1 < j < |ws|
        ensures ws[j].0 != ws[n - 1].0
      {
        if j < 8 {
          SrkRegistersDistinct(j, n - 1);
        } else {
          SrkRegistersDistinct(n - 1, n - 1);
        }
      }
      ApplyLast(regs, ws, n - 1);
      assert vals[..n] == vals[..n - 1] + [vals[n - 1]];
    }
  }

  /** The words of `Srk.get`'s text parse back one by one. */
  lemma {:induction false} ParseSrkTexts(vals: seq<nat>)
    ensures ParseFields(SrkTexts(vals)) == Ok(vals)
    decreases |vals|
  {
    if vals != [] {
      var v, rest := vals[0], vals[1..];
      SrkTextsCons(vals);
      ParseHex0x08(v);
      ParseSrkTexts(rest);
      ParseFieldsCons(SrkTexts(vals), Some(v), Ok(rest));
      assert [v] + rest == vals;
    }
  }

  /** The first text is that of the first word, the others are those of the other words. */
  lemma SrkTextsCons(vals: seq<nat>)
    requires vals != []
    ensures SrkTexts(vals) != [] && SrkTexts(vals)[0] == Hex0x08(vals[0])
    ensures SrkTexts(vals)[1..] == SrkTexts(vals[1..])
  {}

  /** A field that parses, then fields that parse, parse as the one value and then the rest. */
  lemma ParseFieldsCons(ts: seq<string>, first: Option<nat>, rest: Result<seq<nat>, PyError>)
    requires ts != [] && first.Some? && rest.Ok?
    requires ParseInt16(ts[0]) == first && ParseFields(ts[1..]) == rest
    ensures ParseFields(ts) == Ok([first.value] + rest.value)
  {}

  /** One word of `Srk.get`'s text holds neither a comma nor a newline. */
  lemma SrkWordAvoids(v: nat)
    ensures ',' !in Hex0x08(v) && '\n' !in Hex0x08(v)
  {
    var d := Pad(Digits(v), 8);
    HexValPad(Digits(v), 8);
    HexChars(d);
    assert Hex0x08(v) == "0x" + d;
  }

  /** `Srk.get`'s text holds no newline, so the `strip('\n')` of `Srk.blow` leaves it as it is. */
  lemma SrkTextStrips(vals: seq<nat>)
    ensures forall i :: 0 <= i < |SrkTexts(vals)| ==> ',' !in SrkTexts(vals)[i]
    ensures Strip(SrkText(vals), {'\n'}) == SrkText(vals)
  {
    var ts := SrkTexts(vals);
    forall i | 0 <= i < |ts|
      ensures ',' !in ts[i] && '\n' !in ts[i]
    {
      SrkWordAvoids(vals[i]);
    }
    JoinAvoids(ts, ',', '\n');
    var s := SrkText(vals);
    assert forall i :: 0 <= i < |s| ==> s[i] != '\n';
    StripNone(s, {'\n'});
  }

  /** `Srk.blow` of the text `Srk.get` prints parses the same eight words. */
  lemma SrkParseText(vals: seq<nat>)
    requires |vals| == 8
    ensures SrkParse(SrkText(vals)) == Ok(vals)
  {
    SrkTextStrips(vals);
    SplitJoin(SrkTexts(vals), ',');
    ParseSrkTexts(vals);
  }

  /** Blowing the SRK with the text `Srk.get` prints writes exactly those words, then the lock. */
  lemma SrkBlowText(vals: seq<nat>)
    requires |vals| == 8
    ensures SrkBlowSpec(Some(SrkText(vals))) == Blown(Ok(()), SrkWrites(vals))
  {
    SrkParseText(vals);
  }

  /** After a successful `Srk.blow` the fuse is fused and `Srk.get` prints the words written. */
  lemma SrkAfterBlow(regs: Regs, vals: seq<nat>)
    requires |vals| == 8
    ensures IsFusedSpec(Apply(regs, SrkWrites(vals)), Srk) == Ok(true)
    ensures SrkGetSpec(Apply(regs, SrkWrites(vals))) == Ok(SrkText(vals))
  {
    ApplyLast(regs, SrkWrites(vals), 8);
    AndSelf(SrkLockMask);
    SrkReadBack(regs, vals, 8);
    assert vals[..8] == vals;
  }

  /**
   * Blowing the SRK with the text `Srk.get` prints writes those words, and the fuse then
   * reads back as fused with the same text.
   */
  lemma SrkRoundTrip(regs: Regs, vals: seq<nat>)
    requires |vals| == 8
    ensures SrkBlowSpec(Some(SrkText(vals))) == Blown(Ok(()), SrkWrites(vals))
    ensures IsFusedSpec(Apply(regs, SrkWrites(vals)), Srk) == Ok(true)
    ensures SrkGetSpec(Apply(regs, SrkWrites(vals))) == Ok(SrkText(vals))
  {
    SrkBlowText(vals);
    SrkAfterBlow(regs, vals);
  }

  /** Committing the SRK again with the same text after a commit: exit 0, no further write. */
  lemma SrkRecommit(regs: Regs, vals: seq<nat>, commit: bool, verify: bool)
    requires |vals| == 8
    ensures Decide(Apply(regs, SrkWrites(vals)), Srk, Some(SrkText(vals)), commit, verify) == Run(Exited(0), [])
  {
    SrkRoundTrip(regs, vals);
  }

  /** The same words spelled differently (upper case, no zero fill) are "already fused differently": exit 1. */
  lemma SrkOtherSpelling(regs: Regs, vals: seq<nat>, arg: string, commit: bool, verify: bool)
    requires |vals| == 8 && arg != SrkText(vals)
    ensures Decide(Apply(regs, SrkWrites(vals)), Srk, Some(arg), commit, verify) == Run(Exited(1), [])
  {
    var after := Apply(regs, SrkWrites(vals));
    SrkAfterBlow(regs, vals);
    assert GetSpec(after, Srk) == Ok(Some(SrkText(vals)));
    SrkTextNotEmpty(vals);
    FusedDiffers(after, Srk, Some(arg), commit, verify, SrkText(vals));
  }

  /** The eight words joined with commas are not the empty text. */
  lemma SrkTextNotEmpty(vals: seq<nat>)
    requires |vals| == 8
    ensures SrkText(vals) != ""
  {
    var ts := SrkTexts(vals);
    assert Join(ts, ',') == ts[0] + [','] + Join(ts[1..], ',');
  }
}
