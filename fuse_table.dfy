/**
 * The `FlagFuseDesc` record and the `flag_fuses` tables of the SoC files
 * (flash-fuse-imx8mp.cpp, flash-fuse-imx8mn.cpp, flash-fuse-imx6dl.cpp).
 *
 * A table and the selector map of each entry are `std::map`s built from
 * initializer lists. The lemmas here carry facts checked on an initializer list
 * (selectors inside the mask, selectors distinct, which name holds which value)
 * over to the map the fuse actually iterates.
 */
module FuseTable {
  import opened Wrappers
  import opened Bits
  import opened Nvmem
  import opened StdMap
  import opened CommonFuse

  /**
   * `FlagFuseDesc`: the word, the mask and the named selectors of one flag fuse.
   * `bits` is the initializer list of the selector map, in the order written.
   */
  datatype FlagFuseDesc = FlagFuseDesc(offset: int, mask: Word, bits: Entries<Word>)

  /** `make_fuse`'s `FlagFuse(nvmem, desc.offset, desc.mask, desc.bits)`, over the map `bits` builds. */
  function ToFlag(d: FlagFuseDesc): FlagFuse
  {
    FlagFuse(d.offset, d.mask, FromList(d.bits))
  }

  /** Every selector of a list lies inside the mask. */
  predicate InMask(l: Entries<Word>, m: Word)
  {
    forall i :: 0 <= i < |l| ==> Within(l[i].1, m)
  }

  /** The selectors of a list are pairwise distinct. */
  predicate DistinctValues(l: Entries<Word>)
  {
    forall i, j :: 0 <= i < j < |l| ==> l[i].1 != l[j].1
  }

  /** `a < b` on words, kept behind a name so quantifiers over it stay cheap. */
  predicate Below(a: Word, b: Word)
  {
    a < b
  }

  lemma BelowFacts(a: Word, b: Word, c: Word)
    ensures Below(a, b) && Below(b, c) ==> Below(a, c)
    ensures Below(a, b) ==> a != b
  {}

  /** Selectors written in strictly ascending order of value. */
  predicate Ascending(l: Entries<Word>)
    decreases |l|
  {
    |l| <= 1 || (Below(l[0].1, l[1].1) && Ascending(l[1..]))
  }

  lemma {:induction false} AscendingAbove(l: Entries<Word>, v: Word)
    requires Ascending(l) && |l| > 0 && Below(v, l[0].1)
    ensures forall j :: 0 <= j < |l| ==> Below(v, l[j].1)
    decreases |l|
  {
    if |l| > 1 {
      BelowFacts(v, l[0].1, l[1].1);
      AscendingAbove(l[1..], v);
      assert forall j :: 1 <= j < |l| ==> l[j] == l[1..][j - 1];
    }
  }

  /** Selectors in ascending order are distinct. */
  lemma {:induction false} AscendingDistinct(l: Entries<Word>)
    requires Ascending(l)
    ensures DistinctValues(l)
    decreases |l|
  {
    if |l| > 1 {
      var t := l[1..];
      AscendingDistinct(t);
      AscendingAbove(t, l[0].1);
      forall i, j | 0 <= i < j < |l|
        ensures l[i].1 != l[j].1
      {
        assert l[j] == t[j - 1];
        if i > 0 {
          assert l[i] == t[i - 1];
        } else {
          BelowFacts(l[0].1, l[j].1, l[j].1);
        }
      }
    }
  }

  /** In an ordered map an entry is what looking up its own key finds. */
  lemma FindEntry<V>(m: Entries<V>, j: int)
    requires Ordered(m) && 0 <= j < |m|
    ensures Find(m, m[j].0) == Some(m[j].1)
  {
    var i :| 0 <= i < |m| && m[i] == (m[j].0, Find(m, m[j].0).value);
    if i != j {
      OrderedKeysDistinct(m, i, j);
    }
  }

  /** A map built from a list whose selectors are inside the mask and distinct is a well-formed flag fuse. */
  lemma BuiltWellFormed(offset: int, mask: Word, l: Entries<Word>)
    requires InMask(l, mask) && DistinctValues(l)
    ensures FlagWellFormed(FlagFuse(offset, mask, FromList(l)))
  {
    var m := FromList(l);
    FromListEntries(l);
    forall i | 0 <= i < |m|
      ensures Within(m[i].1, mask)
    {
      var p :| 0 <= p < |l| && l[p] == m[i];
    }
    forall i, j | 0 <= i < j < |m|
      ensures m[i].1 != m[j].1
    {
      var p :| 0 <= p < |l| && l[p] == m[i];
      var q :| 0 <= q < |l| && l[q] == m[j];
      OrderedKeysDistinct(m, i, j);
      assert p != q;
    }
  }

  /**
   * The name the built map gives a value: `name`, when the list maps `name` to the value and
   * every other name the list lists with the value is kept with a different one.
   */
  lemma BuiltNameOf(l: Entries<Word>, val: Word, name: string)
    requires Find(l, name) == Some(val)
    requires forall i :: 0 <= i < |l| && l[i].1 == val && Find(l, l[i].0) == Some(val) ==> l[i].0 == name
    ensures NameOf(FromList(l), val) == name
  {
    var m := FromList(l);
    FromListFind(l, name);
    FromListEntries(l);
    var k :| 0 <= k < |m| && m[k] == (name, val);
    forall j | 0 <= j < k
      ensures m[j].1 != val
    {
      var p :| 0 <= p < |l| && l[p] == m[j];
      FindEntry(m, j);
      FromListFind(l, m[j].0);
      OrderedKeysDistinct(m, j, k);
    }
    NameOfFirst(m, val, k);
  }

  /** A value no name of the list keeps in the built map reads as "UNKNOWN". */
  lemma BuiltNameOfNone(l: Entries<Word>, val: Word)
    requires forall i :: 0 <= i < |l| && l[i].1 == val ==> Find(l, l[i].0) != Some(val)
    ensures NameOf(FromList(l), val) == "UNKNOWN"
  {
    var m := FromList(l);
    FromListEntries(l);
    forall j | 0 <= j < |m|
      ensures m[j].1 != val
    {
      var p :| 0 <= p < |l| && l[p] == m[j];
      FindEntry(m, j);
      FromListFind(l, m[j].0);
    }
    NameOfNone(m, val);
  }

  /** The built map has exactly the names of the list. */
  lemma BuiltContains<V>(l: Entries<V>, name: string)
    ensures Contains(FromList(l), name) <==> exists i :: 0 <= i < |l| && l[i].0 == name
  {
    FromListFind(l, name);
  }

  /**
   * The first selector of an entry's initializer list is a zero selector named
   * other than "UNKNOWN", and the selectors are pairwise distinct.
   */
  predicate ZeroFirst(d: FlagFuseDesc)
  {
    |d.bits| > 0 && d.bits[0].1 == 0 && d.bits[0].0 != "UNKNOWN" && DistinctValues(d.bits)
  }

  /** What is checked of each table entry: its zero selector comes first, and every selector lies inside the mask. */
  predicate Sound(d: FlagFuseDesc)
  {
    ZeroFirst(d) && InMask(d.bits, d.mask)
  }

  /** On a fuse made from such an entry, an all-zero word reads as the zero selector. */
  lemma ZeroFirstName(d: FlagFuseDesc)
    requires ZeroFirst(d)
    ensures FlagName(ToFlag(d), 0) == d.bits[0].0
  {
    assert Masked(0, d.mask) == 0;
    BuiltNameOf(d.bits, 0, d.bits[0].0);
  }

  /** A sound entry makes a well-formed flag fuse on which an all-zero word reads as the zero selector. */
  lemma SoundFlag(d: FlagFuseDesc)
    requires Sound(d)
    ensures FlagWellFormed(ToFlag(d))
    ensures FlagName(ToFlag(d), 0) == d.bits[0].0
  {
    BuiltWellFormed(d.offset, d.mask, d.bits);
    ZeroFirstName(d);
  }

  /** A name other than "UNKNOWN" that `get` returns is listed with exactly the masked field as its value. */
  lemma NameValue(d: FlagFuseDesc, w: Word)
    requires FlagName(ToFlag(d), w) != "UNKNOWN"
    ensures Find(d.bits, FlagName(ToFlag(d), w)) == Some(Masked(w, d.mask))
  {
    var f := ToFlag(d);
    var name, v := FlagName(f, w), Masked(w, d.mask);
    NameOfFound(f.flags, v);
    var j :| 0 <= j < |f.flags| && f.flags[j] == (name, v);
    FindEntry(f.flags, j);
    FromListFind(d.bits, name);
  }

  /**
   * On a sound entry, `get` returns a selector the map keeps exactly when the masked
   * field equals that selector's value.
   */
  lemma SoundNameIff(d: FlagFuseDesc, w: Word, i: int)
    requires Sound(d) && 0 <= i < |d.bits| && d.bits[i].0 != "UNKNOWN"
    requires Find(d.bits, d.bits[i].0) == Some(d.bits[i].1)
    ensures FlagName(ToFlag(d), w) == d.bits[i].0 <==> Masked(w, d.mask) == d.bits[i].1
  {
    var f := ToFlag(d);
    var name, v := d.bits[i].0, d.bits[i].1;
    if Masked(w, d.mask) == v {
      SoundFlag(d);
      FromListFind(d.bits, name);
      var j :| 0 <= j < |f.flags| && f.flags[j] == (name, v);
      FlagEntryDecodes(f, j);
      WithinMask(v, d.mask);
    }
    if FlagName(f, w) == name {
      NameValue(d, w);
    }
  }

  /** `is_fuseable` of a name the list gives value `v`. */
  lemma BuiltAllows(d: FlagFuseDesc, w: Word, arg: string, v: Word)
    requires Find(d.bits, arg) == Some(v)
    ensures FlagAllows(ToFlag(d), w, arg) == Ok(Within(Masked(w, d.mask), v))
  {
    FromListFind(d.bits, arg);
  }

  /**
   * Two sound entries in the same word with disjoint masks: `set` of one rewrites the
   * whole word, so the other then reads as its zero selector.
   */
  lemma SetClearsOther(img: seq<Byte>, a: FlagFuseDesc, b: FlagFuseDesc, arg: string)
    requires Sound(a) && Sound(b) && a.offset == b.offset && Masked(a.mask, b.mask) == 0
    requires FlagSetSpec(img, ToFlag(a), arg).result.Ok?
    ensures FlagGetSpec(FlagSetSpec(img, ToFlag(a), arg).image, ToFlag(b)) == Ok(b.bits[0].0)
  {
    var fa, fb := ToFlag(a), ToFlag(b);
    SoundFlag(a);
    SoundFlag(b);
    FlagSetOverwrites(img, fa, arg);
    var v := Find(fa.flags, arg).value;
    var k :| 0 <= k < |fa.flags| && fa.flags[k] == (arg, v);
    WithinDisjoint(v, fa.mask, fb.mask);
    assert Masked(0, fb.mask) == 0;
    assert FlagName(fb, v) == FlagName(fb, 0);
  }
}
