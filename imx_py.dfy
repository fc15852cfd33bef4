/**
 * flash-fuse-imx.py: the Python tool for the i.MX6 `fsl_otp` sysfs directory.
 * Every fuse word is a file named after its register (HW_OCOTP_CFG5, ...):
 * `read_fuse` parses the file with `int(text, 16)`, and `write_fuse` replaces
 * its contents with `hex(value)` and a newline.
 *
 * The directory is a map from register name to the value its file holds
 * (PyText.WrittenReadsBack: what `write_fuse` writes, `read_fuse` reads back).
 * A register without a file is a failed `open`. Writing creates the file or
 * replaces all of it.
 */
module ImxPy {
  import opened Wrappers
  import opened MacCodec
  import opened PyInt
  import opened PyText

  type Regs = map<string, nat>
  type Writes = seq<(string, nat)>

  /** Why a `blow` raises RuntimeError. */
  datatype Reason = SrkInvalid | MacInvalid | MacLocked

  /** The exceptions the tool can raise; each one ends the process with status 1. */
  datatype PyError =
    | FileNotFound(register: string)   // `open` of a register that has no file
    | ValueError(text: string)         // `int(text, 16)` rejects the text
    | RuntimeError(reason: Reason)     // raised by `blow`
    | AttributeError                   // `blow(None)`: no argument for a fuse that takes one
    | KeyError(name: string)           // the --fuse name is not a key of `fuse_obj_map`

  const Cfg4: string := "HW_OCOTP_CFG4"
  const Cfg5: string := "HW_OCOTP_CFG5"
  const Lock: string := "HW_OCOTP_LOCK"
  const Mac0: string := "HW_OCOTP_MAC0"
  const Mac1: string := "HW_OCOTP_MAC1"

  /** `f'HW_OCOTP_SRK{i}'`. */
  function SrkRegister(i: nat): string
    requires i < 8
  {
    "HW_OCOTP_SRK" + [('0' as int + i) as char]
  }

  /** `Srk.LOCKMASK`: bit 14 of the lock word. */
  const SrkLockMask: nat := 0x4000
  /** `EthernetMac.LOCK_MAC_ADDR_mask`: bits 8 and 9 of the lock word. */
  const MacLockMask: nat := 0x300

  /** `read_fuse(name)`. */
  function ReadSpec(regs: Regs, name: string): Result<nat, PyError>
  {
    if name in regs then Ok(regs[name]) else Err(FileNotFound(name))
  }

  /** The registers after `writes`, in order; a later write to a register replaces an earlier one. */
  function Apply(regs: Regs, writes: Writes): (r: Regs)
    ensures regs.Keys <= r.Keys
    decreases |writes|
  {
    if writes == [] then regs
    else
      var w := writes[|writes| - 1];
      Apply(regs, writes[..|writes| - 1])[w.0 := w.1]
  }

  /** The `fsl_otp` directory. `log` records every `write_fuse`, in order. */
  class FslOtp {
    var regs: Regs
    ghost var log: Writes

    constructor (files: Regs)
      ensures regs == files && log == []
    {
      regs := files;
      log := [];
    }

    method ReadFuse(name: string) returns (r: Result<nat, PyError>)
      ensures r == ReadSpec(regs, name)
    {
      if name in regs {
        r := Ok(regs[name]);
      } else {
        r := Err(FileNotFound(name));
      }
    }

    method WriteFuse(name: string, v: nat)
      modifies this
      ensures regs == old(regs)[name := v]
      ensures log == old(log) + [(name, v)]
    {
      regs := regs[name := v];
      log := log + [(name, v)];
    }
  }

  /** The fuse classes. */
  datatype Fuse =
    | SingleMask(register: string, mask: nat)   // CFG5_DIR_BT_DIS and its subclasses
    | Srk
    | EthernetMac

  const DirBtDis: Fuse := SingleMask(Cfg5, 0x00000008)
  const BtFuseSel: Fuse := SingleMask(Cfg5, 0x00000010)
  const SjcDisable: Fuse := SingleMask(Cfg5, 0x00100000)
  const SecConfig: Fuse := SingleMask(Cfg5, 0x00000002)
  const Emmc: Fuse := SingleMask(Cfg4, 0x00000060)
  const SerialRom: Fuse := SingleMask(Cfg4, 0x00000030)
  const EmmcSdhc3: Fuse := SingleMask(Cfg4, 0x00001000)
  const Emmc8Bit: Fuse := SingleMask(Cfg4, 0x00004000)
  const SerialRomSpi2: Fuse := SingleMask(Cfg4, 0x01000000)

  /** An entry of `fuse_obj_map`: the class, and whether the fuse takes an argument. */
  datatype Entry = Entry(obj: Fuse, arg: bool)

  const FuseObjMap: map<string, Entry> := map[
    "CFG5_SJC_DISABLE" := Entry(SjcDisable, false),
    "MAC" := Entry(EthernetMac, true),
    "SRK" := Entry(Srk, true),
    "CFG5_DIR_BT_DIS" := Entry(DirBtDis, false),
    "CFG5_BT_FUSE_SEL" := Entry(BtFuseSel, false),
    "CFG5_SEC_CONFIG" := Entry(SecConfig, false),
    "CFG4_EMMC" := Entry(Emmc, false),
    "CFG4_SERIALROM" := Entry(SerialRom, false),
    "CFG4_EMMC_SDHC3" := Entry(EmmcSdhc3, false),
    "CFG4_EMMC_8BIT" := Entry(Emmc8Bit, false),
    "CFG4_SERIALROM_SPI2" := Entry(SerialRomSpi2, false)
  ]

  // ----- get -----

  /** The six fields `EthernetMac.get` cuts from `f'{MAC0:08x}'` and `f'{MAC1:08x}'`. */
  function MacFields(mac0: nat, mac1: nat): (fields: seq<string>)
    ensures |fields| == 6
  {
    var a, b := Hex08(mac0), Hex08(mac1);
    [b[4..6], b[6..8], a[0..2], a[2..4], a[4..6], a[6..8]]
  }

  /** `EthernetMac.get`: reads MAC0, then MAC1. */
  function MacGetSpec(regs: Regs): Result<string, PyError>
  {
    match ReadSpec(regs, Mac0)
    case Err(e) => Err(e)
    case Ok(mac0) =>
      match ReadSpec(regs, Mac1)
      case Err(e) => Err(e)
      case Ok(mac1) => Ok(Join(MacFields(mac0, mac1), ':'))
  }

  /** SRK0 .. SRK(n-1), read in order; the first register without a file fails. */
  function SrkRead(regs: Regs, n: nat): (r: Result<seq<nat>, PyError>)
    requires n <= 8
    ensures r.Ok? ==> |r.value| == n
  {
    if n == 0 then Ok([])
    else
      match SrkRead(regs, n - 1)
      case Err(e) => Err(e)
      case Ok(vs) =>
        match ReadSpec(regs, SrkRegister(n - 1))
        case Err(e) => Err(e)
        case Ok(v) => Ok(vs + [v])
  }

  /** `f'{s:#0{10}x}'` of each word: one text per word, which `int(_, 16)` reads back as that word. */
  function SrkTexts(vs: seq<nat>): (ts: seq<string>)
    ensures |ts| == |vs|
    ensures forall i :: 0 <= i < |ts| ==> ParseInt16(ts[i]) == Some(vs[i])
  {
    var ts := seq(|vs|, i requires 0 <= i < |vs| => Hex0x08(vs[i]));
    assert forall i :: 0 <= i < |ts| ==> ParseInt16(ts[i]) == Some(vs[i]) by {
      forall i | 0 <= i < |ts|
        ensures ParseInt16(ts[i]) == Some(vs[i])
      {
        ParseHex0x08(vs[i]);
      }
    }
    ts
  }

  /** The text `Srk.get` prints for the eight words. */
  function SrkText(vs: seq<nat>): string
  {
    Join(SrkTexts(vs), ',')
  }

  /** `Srk.get`. */
  function SrkGetSpec(regs: Regs): Result<string, PyError>
  {
    match SrkRead(regs, 8)
    case Err(e) => Err(e)
    case Ok(vs) => Ok(SrkText(vs))
  }

  /** `get`: None for a single-mask fuse. */
  function GetSpec(regs: Regs, f: Fuse): Result<Option<string>, PyError>
  {
    match f
    case SingleMask(_, _) => Ok(None)
    case Srk =>
      (match SrkGetSpec(regs)
       case Err(e) => Err(e)
       case Ok(s) => Ok(Some(s)))
    case EthernetMac =>
      match MacGetSpec(regs)
      case Err(e) => Err(e)
      case Ok(s) => Ok(Some(s))
  }

  // ----- is_fused -----

  /**
   * `is_fused`: every bit of the mask is set; for `Srk`, bit 14 of the lock word;
   * for `EthernetMac`, the printed address read as one hex number is not zero.
   */
  function IsFusedSpec(regs: Regs, f: Fuse): Result<bool, PyError>
  {
    match f
    case SingleMask(register, mask) =>
      (match ReadSpec(regs, register)
       case Err(e) => Err(e)
       case Ok(v) => Ok(And(v, mask) == mask))
    case Srk =>
      (match ReadSpec(regs, Lock)
       case Err(e) => Err(e)
       case Ok(v) => Ok(And(v, SrkLockMask) == SrkLockMask))
    case EthernetMac =>
      match MacGetSpec(regs)
      case Err(e) => Err(e)
      case Ok(s) =>
        match ParseInt16(Remove(s, ':'))
        case None => Err(ValueError(Remove(s, ':')))
        case Some(v) => Ok(v != 0)
  }

  // ----- blow -----

  /** What a `blow` returned, and the registers it wrote, in order. */
  datatype Blown = Blown(result: Result<(), PyError>, writes: Writes)

  /** `[int(k, base=16) for k in fields]`: the first field `int` rejects raises. */
  function ParseFields(fields: seq<string>): (r: Result<seq<nat>, PyError>)
    ensures r.Ok? ==> |r.value| == |fields|
    decreases |fields|
  {
    if fields == [] then Ok([])
    else
      match ParseInt16(fields[0])
      case None => Err(ValueError(fields[0]))
      case Some(v) =>
        match ParseFields(fields[1..])
        case Err(e) => Err(e)
        case Ok(vs) => Ok([v] + vs)
  }

  /** The writes of a successful `Srk.blow`: SRK0 .. SRK7, then the lock word. */
  function SrkWrites(vals: seq<nat>): (ws: Writes)
    requires |vals| == 8
    ensures |ws| == 9
  {
    seq(8, i requires 0 <= i < 8 => (SrkRegister(i), vals[i])) + [(Lock, SrkLockMask)]
  }

  /** The words `Srk.blow` parses from its argument. */
  function SrkParse(srk: string): Result<seq<nat>, PyError>
  {
    ParseFields(Split(Strip(srk, {'\n'}), ','))
  }

  /** `Srk.blow`: every field is parsed and counted before the first write. */
  function SrkBlowSpec(arg: Option<string>): Blown
  {
    match arg
    case None => Blown(Err(AttributeError), [])
    case Some(srk) => SrkCounted(SrkParse(srk))
  }

  /** `Srk.blow` once the fields are parsed: a parse error, a count other than eight, or the writes. */
  function SrkCounted(parsed: Result<seq<nat>, PyError>): Blown
  {
    match parsed
    case Err(e) => Blown(Err(e), [])
    case Ok(vals) =>
      if |vals| != 8 then Blown(Err(RuntimeError(SrkInvalid)), [])
      else Blown(Ok(()), SrkWrites(vals))
  }

  /** Python's `s[i:j]`, with the bounds clipped to the sequence. */
  function Slice<T>(s: seq<T>, i: nat, j: nat): (t: seq<T>)
    ensures i <= j <= |s| ==> t == s[i..j]
  {
    var j' := if j <= |s| then j else |s|;
    var i' := if i <= j' then i else j';
    s[i'..j']
  }

  /** The text `EthernetMac.blow` parses for MAC0: `'0x'` and fields 2..5. */
  function Mac0Text(mac: string): string
  {
    "0x" + Concat(Slice(Split(mac, ':'), 2, 6))
  }

  /** The text `EthernetMac.blow` parses for MAC1: `'0x'` and fields 0..1. */
  function Mac1Text(mac: string): string
  {
    "0x" + Concat(Slice(Split(mac, ':'), 0, 2))
  }

  /**
   * `EthernetMac.blow`: the length and lock checks come before any write; MAC0 is
   * written before the MAC1 text is parsed; the lock word is written last.
   */
  function MacBlowSpec(regs: Regs, arg: Option<string>): Blown
  {
    match arg
    case None => Blown(Err(AttributeError), [])
    case Some(mac) =>
      if |Remove(mac, ':')| != 12 then Blown(Err(RuntimeError(MacInvalid)), [])
      else
        match ReadSpec(regs, Lock)
        case Err(e) => Blown(Err(e), [])
        case Ok(lock) =>
          if And(lock, MacLockMask) != 0 then Blown(Err(RuntimeError(MacLocked)), [])
          else MacWrites(mac)
  }

  /** `blow(arg)`; a single-mask fuse ignores its argument and writes exactly its mask. */
  function BlowSpec(regs: Regs, f: Fuse, arg: Option<string>): Blown
  {
    match f
    case SingleMask(register, mask) => Blown(Ok(()), [(register, mask)])
    case Srk => SrkBlowSpec(arg)
    case EthernetMac => MacBlowSpec(regs, arg)
  }

  // ----- the methods -----

  method MacGet(store: FslOtp) returns (r: Result<string, PyError>)
    ensures r == MacGetSpec(store.regs)
  {
    var mac0 := store.ReadFuse(Mac0);
    if mac0.Err? {
      return Err(mac0.error);
    }
    var mac1 := store.ReadFuse(Mac1);
    if mac1.Err? {
      return Err(mac1.error);
    }
    var a, b := Hex08(mac0.value), Hex08(mac1.value);
    var macList := [b[4..6], b[6..8], a[0..2], a[2..4], a[4..6], a[6..8]];
    r := Ok(Join(macList, ':'));
  }

  /** A missing register stays the first failure of the reads that follow it. */
  lemma {:induction false} SrkReadFails(regs: Regs, i: nat, n: nat)
    requires i <= n <= 8 && SrkRead(regs, i).Err?
    ensures SrkRead(regs, n) == SrkRead(regs, i)
    decreases n
  {
    if n > i {
      SrkReadFails(regs, i, n - 1);
    }
  }

  /** `Srk.get`: the loop over `range(8)`. */
  method SrkGet(store: FslOtp) returns (r: Result<string, PyError>)
    ensures r == SrkGetSpec(store.regs)
  {
    var srk: seq<string> := [];
    for i := 0 to 8
      invariant SrkRead(store.regs, i).Ok?
      invariant srk == SrkTexts(SrkRead(store.regs, i).value)
    {
      var s := store.ReadFuse(SrkRegister(i));
      if s.Err? {
        SrkReadFails(store.regs, i + 1, 8);
        return Err(s.error);
      }
      srk := srk + [Hex0x08(s.value)];
    }
    r := Ok(Join(srk, ','));
  }

  method Get(store: FslOtp, f: Fuse) returns (r: Result<Option<string>, PyError>)
    ensures r == GetSpec(store.regs, f)
  {
    match f
    case SingleMask(_, _) =>
      r := Ok(None);
    case Srk =>
      var s := SrkGet(store);
      r := if s.Ok? then Ok(Some(s.value)) else Err(s.error);
    case EthernetMac =>
      var s := MacGet(store);
      r := if s.Ok? then Ok(Some(s.value)) else Err(s.error);
  }

  method IsFused(store: FslOtp, f: Fuse) returns (r: Result<bool, PyError>)
    ensures r == IsFusedSpec(store.regs, f)
  {
    match f
    case SingleMask(register, mask) =>
      var v := store.ReadFuse(register);
      r := if v.Ok? then Ok(And(v.value, mask) == mask) else Err(v.error);
    case Srk =>
      var v := store.ReadFuse(Lock);
      r := if v.Ok? then Ok(And(v.value, SrkLockMask) == SrkLockMask) else Err(v.error);
    case EthernetMac =>
      var s := MacGet(store);
      if s.Err? {
        return Err(s.error);
      }
      var digits := Remove(s.value, ':');
      var v := ParseInt16(digits);
      r := if v.Some? then Ok(v.value != 0) else Err(ValueError(digits));
  }

  /** One more write extends the registers `Apply` computes. */
  lemma ApplyStep(regs: Regs, ws: Writes, w: (string, nat))
    ensures Apply(regs, ws + [w]) == Apply(regs, ws)[w.0 := w.1]
  {
    assert (ws + [w])[..|ws|] == ws;
  }

  /** The `enumerate` loop of `Srk.blow`, then the lock word. */
  method SrkWrite(store: FslOtp, srk: seq<nat>)
    requires |srk| == 8
    modifies store
    ensures store.regs == Apply(old(store.regs), SrkWrites(srk))
    ensures store.log == old(store.log) + SrkWrites(srk)
  {
    ghost var ws := SrkWrites(srk);
    ghost var regs0 := store.regs;
    for i := 0 to 8
      invariant store.regs == Apply(regs0, ws[..i])
      invariant store.log == old(store.log) + ws[..i]
    {
      store.WriteFuse(SrkRegister(i), srk[i]);
      assert ws[..i + 1] == ws[..i] + [(SrkRegister(i), srk[i])];
      ApplyStep(regs0, ws[..i], (SrkRegister(i), srk[i]));
    }
    store.WriteFuse(Lock, SrkLockMask);
    assert ws == ws[..8] + [(Lock, SrkLockMask)];
    ApplyStep(regs0, ws[..8], (Lock, SrkLockMask));
  }

  /** `Srk.blow`: every field is parsed and counted before the loop writes. */
  method SrkBlow(store: FslOtp, arg: Option<string>) returns (r: Result<(), PyError>)
    modifies store
    ensures r == SrkBlowSpec(arg).result
    ensures store.regs == Apply(old(store.regs), SrkBlowSpec(arg).writes)
    ensures store.log == old(store.log) + SrkBlowSpec(arg).writes
  {
    if arg.None? {
      return Err(AttributeError);
    }
    r := SrkCount(store, SrkParse(arg.value));
  }

  /** The count check of `Srk.blow`, then the writes. */
  method SrkCount(store: FslOtp, parsed: Result<seq<nat>, PyError>) returns (r: Result<(), PyError>)
    modifies store
    ensures r == SrkCounted(parsed).result
    ensures store.regs == Apply(old(store.regs), SrkCounted(parsed).writes)
    ensures store.log == old(store.log) + SrkCounted(parsed).writes
  {
    if parsed.Err? {
      return Err(parsed.error);
    }
    var srk := parsed.value;
    if |srk| != 8 {
      return Err(RuntimeError(SrkInvalid));
    }
    SrkWrite(store, srk);
    r := Ok(());
  }

  /** The writes of `EthernetMac.blow` once the length and the lock are checked. */
  function MacWrites(mac: string): Blown
  {
    match ParseInt16(Mac0Text(mac))
    case None => Blown(Err(ValueError(Mac0Text(mac))), [])
    case Some(v0) =>
      match ParseInt16(Mac1Text(mac))
      case None => Blown(Err(ValueError(Mac1Text(mac))), [(Mac0, v0)])
      case Some(v1) => Blown(Ok(()), [(Mac0, v0), (Mac1, v1), (Lock, MacLockMask)])
  }

  /** One and three writes, spelled out. */
  lemma ApplyWrites(regs: Regs, a: (string, nat), b: (string, nat), c: (string, nat))
    ensures Apply(regs, [a]) == regs[a.0 := a.1]
    ensures Apply(regs, [a, b, c]) == regs[a.0 := a.1][b.0 := b.1][c.0 := c.1]
  {
    assert [a, b, c][..2] == [a, b] && [a, b][..1] == [a] && [a][..0] == [];
  }

  lemma AppendThree<T>(s: seq<T>, a: T, b: T, c: T)
    ensures s + [a] + [b] + [c] == s + [a, b, c]
  {}

  method MacWrite(store: FslOtp, mac: string) returns (r: Result<(), PyError>)
    modifies store
    ensures r == MacWrites(mac).result
    ensures store.regs == Apply(old(store.regs), MacWrites(mac).writes)
    ensures store.log == old(store.log) + MacWrites(mac).writes
  {
    var macList := Split(mac, ':');
    var text0 := "0x" + Concat(Slice(macList, 2, 6));
    var v0 := ParseInt16(text0);
    if v0.None? {
      return Err(ValueError(text0));
    }
    store.WriteFuse(Mac0, v0.value);
    var text1 := "0x" + Concat(Slice(macList, 0, 2));
    var v1 := ParseInt16(text1);
    if v1.None? {
      ApplyWrites(old(store.regs), (Mac0, v0.value), (Mac0, v0.value), (Mac0, v0.value));
      return Err(ValueError(text1));
    }
    store.WriteFuse(Mac1, v1.value);
    store.WriteFuse(Lock, MacLockMask);
    ApplyWrites(old(store.regs), (Mac0, v0.value), (Mac1, v1.value), (Lock, MacLockMask));
    AppendThree(old(store.log), (Mac0, v0.value), (Mac1, v1.value), (Lock, MacLockMask));
    r := Ok(());
  }

  method MacBlow(store: FslOtp, arg: Option<string>) returns (r: Result<(), PyError>)
    modifies store
    ensures r == MacBlowSpec(old(store.regs), arg).result
    ensures store.regs == Apply(old(store.regs), MacBlowSpec(old(store.regs), arg).writes)
    ensures store.log == old(store.log) + MacBlowSpec(old(store.regs), arg).writes
  {
    if arg.None? {
      return Err(AttributeError);
    }
    var mac := arg.value;
    if |Remove(mac, ':')| != 12 {
      return Err(RuntimeError(MacInvalid));
    }
    var lock := store.ReadFuse(Lock);
    if lock.Err? {
      return Err(lock.error);
    }
    if And(lock.value, MacLockMask) != 0 {
      return Err(RuntimeError(MacLocked));
    }
    r := MacWrite(store, mac);
  }

  method Blow(store: FslOtp, f: Fuse, arg: Option<string>) returns (r: Result<(), PyError>)
    modifies store
    ensures r == BlowSpec(old(store.regs), f, arg).result
    ensures store.regs == Apply(old(store.regs), BlowSpec(old(store.regs), f, arg).writes)
    ensures store.log == old(store.log) + BlowSpec(old(store.regs), f, arg).writes
  {
    match f
    case SingleMask(register, mask) =>
      ApplyStep(store.regs, [], (register, mask));
      store.WriteFuse(register, mask);
      r := Ok(());
    case Srk =>
      r := SrkBlow(store, arg);
    case EthernetMac =>
      r := MacBlow(store, arg);
  }

  // ----- __main__ -----

  /** The parsed command line: `--fuse`, the optional positional argument, `--commit`, `--verify`. */
  datatype Request = Request(fuse: Option<string>, fuseArgument: Option<string>, commit: bool, verify: bool)

  /** How the process ends: `sys.exit(code)`, or an uncaught exception. */
  datatype Ending = Exited(code: int) | Raised(error: PyError)

  /** The exit status; an uncaught exception exits with status 1. */
  function Status(e: Ending): int
  {
    match e
    case Exited(code) => code
    case Raised(_) => 1
  }

  datatype Run = Run(ending: Ending, writes: Writes)

  /** A value `if val:` accepts: present and not empty. */
  predicate Truthy(val: Option<string>)
  {
    val.Some? && val.value != ""
  }

  /** The decision after the fuse is built (flash-fuse-imx.py:204-220), over a given fuse and argument. */
  function Decide(regs: Regs, f: Fuse, arg: Option<string>, commit: bool, verify: bool): Run
  {
    match IsFusedSpec(regs, f)
    case Err(e) => Run(Raised(e), [])
    case Ok(true) =>
      (match GetSpec(regs, f)
       case Err(e) => Run(Raised(e), [])
       case Ok(val) => if Truthy(val) && val != arg then Run(Exited(1), []) else Run(Exited(0), []))
    case Ok(false) =>
      if commit && !verify then
        var b := BlowSpec(regs, f, arg);
        Run(if b.result.Ok? then Exited(0) else Raised(b.result.error), b.writes)
      else Run(Exited(1), [])
  }

  /** The `__main__` block after argument parsing. */
  function MainSpec(regs: Regs, req: Request): Run
  {
    if req.fuse.None? || req.fuse.value == "" then Run(Exited(1), [])
    else if req.fuse.value !in FuseObjMap then Run(Raised(KeyError(req.fuse.value)), [])
    else
      var entry := FuseObjMap[req.fuse.value];
      Decide(regs, entry.obj, if entry.arg then req.fuseArgument else None, req.commit, req.verify)
  }

  method RunMain(store: FslOtp, req: Request) returns (e: Ending)
    modifies store
    ensures e == MainSpec(old(store.regs), req).ending
    ensures store.regs == Apply(old(store.regs), MainSpec(old(store.regs), req).writes)
    ensures store.log == old(store.log) + MainSpec(old(store.regs), req).writes
  {
    if req.fuse.None? || req.fuse.value == "" {
      return Exited(1);
    }
    var name := req.fuse.value;
    if name !in FuseObjMap {
      return Raised(KeyError(name));
    }
    var arg := if FuseObjMap[name].arg then req.fuseArgument else None;
    var fuse := FuseObjMap[name].obj;
    var fused := IsFused(store, fuse);
    if fused.Err? {
      return Raised(fused.error);
    }
    if fused.value {
      var val := Get(store, fuse);
      if val.Err? {
        return Raised(val.error);
      }
      if Truthy(val.value) && val.value != arg {
        return Exited(1);
      }
      return Exited(0);
    }
    if req.commit && !req.verify {
      var r := Blow(store, fuse, arg);
      if r.Err? {
        return Raised(r.error);
      }
      return Exited(0);
    }
    return Exited(1);
  }
}
