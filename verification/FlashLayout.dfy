/**
 * The Intel flash descriptor at the start of a full SPI image, and the region-limited
 * merge that is built on it.
 */
module FlashLayout {

  import opened Bytes

  const FLVALSIG_OFFSET := 0x10
  const FLVALSIG := 0x0FF0_A55A
  const CHIP_SIZE := 8388608
  const BIOS_BASE := 0x1a0000
  const BIOS_LIMIT := 0x7fffff

  datatype Result<+T> = Ok(value: T) | Err(error: Error)

  datatype Error = TooSmall | NoSignature | NoBiosRegion | OtherBounds | WrongSize | ForeignRegions

  datatype RegionName = Fd | Bios | Me | Gbe | Pd

  datatype Region = Region(name: RegionName, base: nat, limit: nat) {
    predicate Used() {
      base <= limit
    }
  }

  /** FLREG order is fixed by the descriptor. */
  function NameOf(i: nat): RegionName
    requires i < 5
  {
    if i == 0 then Fd else if i == 1 then Bios else if i == 2 then Me else if i == 3 then Gbe else Pd
  }

  // ----- decoding

  function BaseOf(reg: U32): nat {
    reg % 0x8000 * 0x1000
  }

  function LimitOf(reg: U32): nat {
    reg / 0x1_0000 % 0x8000 * 0x1000 + 0xFFF
  }

  /** FRBA: where FLMAP0 says the region registers are. */
  function RegisterBase(data: seq<Byte>): (frba: nat)
    requires |data| >= 0x1000
    ensures frba <= 0xFF0
  {
    Le32(data, 0x14) / 0x1_0000 % 0x100 * 16
  }

  /** The regions of registers i to 4, as far as they lie inside the image. */
  function RegionsFrom(data: seq<Byte>, i: nat): seq<Region>
    requires |data| >= 0x1000 && i <= 5
    decreases 5 - i
  {
    var off := RegisterBase(data) + 4 * i;
    if i == 5 || off + 4 > |data| then []
    else [Region(NameOf(i), BaseOf(Le32(data, off)), LimitOf(Le32(data, off)))] + RegionsFrom(data, i + 1)
  }

  function Decoded(data: seq<Byte>): Result<seq<Region>> {
    if |data| < 0x1000 then Err(TooSmall)
    else if Le32(data, FLVALSIG_OFFSET) != FLVALSIG then Err(NoSignature)
    else Ok(RegionsFrom(data, 0))
  }

  method Decode(data: seq<Byte>) returns (r: Result<seq<Region>>)
    ensures r == Decoded(data)
  {
    if |data| < 0x1000 {
      return Err(TooSmall);
    }
    var sig := Le32(data, FLVALSIG_OFFSET);
    if sig != FLVALSIG {
      return Err(NoSignature);
    }
    var regions := ReadRegions(data);
    return Ok(regions);
  }

  /** The loop over the region registers. */
  method ReadRegions(data: seq<Byte>) returns (regions: seq<Region>)
    requires |data| >= 0x1000
    ensures regions == RegionsFrom(data, 0)
  {
    hide RegionsFrom, Le32, BaseOf, LimitOf, RegisterBase;
    var frba := RegisterBase(data);
    regions := [];
    var i := 0;
    while i < 5
      invariant 0 <= i <= 5
      invariant RegionsFrom(data, 0) == regions + RegionsFrom(data, i)
    {
      var off := frba + 4 * i;
      RegionsNext(data, i);
      if off + 4 > |data| {
        assert regions + [] == regions;
        return;
      }
      var region := Region(NameOf(i), BaseOf(Le32(data, off)), LimitOf(Le32(data, off)));
      assert regions + ([region] + RegionsFrom(data, i + 1)) == (regions + [region]) + RegionsFrom(data, i + 1);
      regions := regions + [region];
      i := i + 1;
    }
    RegionsNext(data, 5);
    assert regions + [] == regions;
  }

  lemma RegionsNext(data: seq<Byte>, i: nat)
    requires |data| >= 0x1000 && i <= 5
    ensures
      var off := RegisterBase(data) + 4 * i;
      RegionsFrom(data, i)
        == if i == 5 || off + 4 > |data| then []
           else [Region(NameOf(i), BaseOf(Le32(data, off)), LimitOf(Le32(data, off)))] + RegionsFrom(data, i + 1)
  {
  }

  /** The register for a region, given by its first and last 4 KiB block. */
  function Register(first: nat, last: nat): U32
    requires first < 0x8000 && last < 0x8000
  {
    last * 0x1_0000 + first
  }

  /** Decoding a register gives back the bounds it was made for. */
  lemma RegisterRoundTrip(first: nat, last: nat)
    requires first < 0x8000 && last < 0x8000
    ensures BaseOf(Register(first, last)) == first * 0x1000
    ensures LimitOf(Register(first, last)) == last * 0x1000 + 0xFFF
  {
    LowPart(2 * last, first);
    HighPart(last, first);
  }

  lemma LowPart(k: nat, b: nat)
    requires b < 0x8000
    ensures (k * 0x8000 + b) % 0x8000 == b
  {
  }

  lemma HighPart(k: nat, b: nat)
    requires b < 0x1_0000
    ensures (k * 0x1_0000 + b) / 0x1_0000 == k
  {
  }

  /** FLMAP0 with the register base in its third byte, in units of 16. */
  lemma RegisterBaseAt(data: seq<Byte>, low: nat, unit: nat, high: nat)
    requires |data| >= 0x1000 && low < 0x1_0000 && unit < 0x100 && high < 0x100
    requires Le32(data, 0x14) == low + unit * 0x1_0000 + high * 0x100_0000
    ensures RegisterBase(data) == 16 * unit
  {
    hide Le32;
    HighPart(unit + high * 0x100, low);
  }

  /**
   * An image with the signature, the register base and five region registers in its place
   * decodes to the bounds they were made for: descriptor, BIOS, ME, GbE and platform data.
   */
  lemma DescriptorRoundTrip(data: seq<Byte>, low: nat, unit: nat, high: nat, first: seq<nat>, last: seq<nat>)
    requires |data| >= 0x1000 && Le32(data, 0x10) == 0x0FF0_A55A
    requires low < 0x1_0000 && unit < 0x100 && high < 0x100
    requires Le32(data, 0x14) == low + unit * 0x1_0000 + high * 0x100_0000
    requires |first| == |last| == 5 && forall i :: 0 <= i < 5 ==> first[i] < 0x8000 && last[i] < 0x8000
    requires 16 * unit + 20 <= |data|
    requires forall i :: 0 <= i < 5 ==> Le32(data, 16 * unit + 4 * i) == Register(first[i], last[i])
    ensures Decoded(data) == Ok([
      Region(Fd, first[0] * 0x1000, last[0] * 0x1000 + 0xFFF),
      Region(Bios, first[1] * 0x1000, last[1] * 0x1000 + 0xFFF),
      Region(Me, first[2] * 0x1000, last[2] * 0x1000 + 0xFFF),
      Region(Gbe, first[3] * 0x1000, last[3] * 0x1000 + 0xFFF),
      Region(Pd, first[4] * 0x1000, last[4] * 0x1000 + 0xFFF)])
  {
    hide Le32, RegisterBase, BaseOf, LimitOf, Register, RegionsFrom;
    RegisterBaseAt(data, low, unit, high);
    RegionAt(data, unit, 0, first[0], last[0]);
    RegionAt(data, unit, 1, first[1], last[1]);
    RegionAt(data, unit, 2, first[2], last[2]);
    RegionAt(data, unit, 3, first[3], last[3]);
    RegionAt(data, unit, 4, first[4], last[4]);
    RegionsNext(data, 5);
    assert RegionsFrom(data, 0) == [
      Region(Fd, first[0] * 0x1000, last[0] * 0x1000 + 0xFFF),
      Region(Bios, first[1] * 0x1000, last[1] * 0x1000 + 0xFFF),
      Region(Me, first[2] * 0x1000, last[2] * 0x1000 + 0xFFF),
      Region(Gbe, first[3] * 0x1000, last[3] * 0x1000 + 0xFFF),
      Region(Pd, first[4] * 0x1000, last[4] * 0x1000 + 0xFFF)];
  }

  lemma RegionAt(data: seq<Byte>, unit: nat, i: nat, first: nat, last: nat)
    requires |data| >= 0x1000 && RegisterBase(data) == 16 * unit && 16 * unit + 20 <= |data|
    requires i < 5 && first < 0x8000 && last < 0x8000
    requires Le32(data, 16 * unit + 4 * i) == Register(first, last)
    ensures RegionsFrom(data, i) ==
            [Region(NameOf(i), first * 0x1000, last * 0x1000 + 0xFFF)] + RegionsFrom(data, i + 1)
  {
    hide Le32, RegisterBase, BaseOf, LimitOf, Register, RegionsFrom;
    RegionsNext(data, i);
    RegisterRoundTrip(first, last);
  }

  // ----- the expected BIOS region

  /** The first used region with the name bios. */
  function BiosOf(regions: seq<Region>): Option<Region> {
    if regions == [] then None
    else if regions[0].Used() && regions[0].name == Bios then Some(regions[0])
    else BiosOf(regions[1..])
  }

  /** The bounds of the BIOS region of an image that passes --expect-bios. */
  function BiosBounds(data: seq<Byte>): Result<(nat, nat)> {
    var r := Decoded(data);
    if r.Err? then Err(r.error)
    else
      var bios := BiosOf(r.value);
      if bios.None? then Err(NoBiosRegion)
      else if (bios.value.base, bios.value.limit) != (BIOS_BASE, BIOS_LIMIT) then Err(OtherBounds)
      else Ok((bios.value.base, bios.value.limit))
  }

  method ExpectBios(data: seq<Byte>) returns (r: Result<(nat, nat)>)
    ensures r == BiosBounds(data)
    ensures r.Ok? ==> r.value == (BIOS_BASE, BIOS_LIMIT)
  {
    var d := Decode(data);
    if d.Err? {
      return Err(d.error);
    }
    var i := 0;
    assert d.value[0..] == d.value;
    while i < |d.value|
      invariant 0 <= i <= |d.value| && BiosOf(d.value) == BiosOf(d.value[i..])
    {
      var region := d.value[i];
      assert d.value[i..][0] == region && d.value[i..][1..] == d.value[i + 1..];
      if region.Used() && region.name == Bios {
        if (region.base, region.limit) != (BIOS_BASE, BIOS_LIMIT) {
          return Err(OtherBounds);
        }
        return Ok((region.base, region.limit));
      }
      i := i + 1;
    }
    return Err(NoBiosRegion);
  }

  /** Of the images with a descriptor in its place, exactly those with a BIOS region of 0x1a0000 to 0x7fffff pass. */
  lemma ExpectedImagePasses(data: seq<Byte>, low: nat, unit: nat, high: nat, first: seq<nat>, last: seq<nat>)
    requires |data| >= 0x1000 && Le32(data, 0x10) == 0x0FF0_A55A
    requires low < 0x1_0000 && unit < 0x100 && high < 0x100
    requires Le32(data, 0x14) == low + unit * 0x1_0000 + high * 0x100_0000
    requires |first| == |last| == 5 && forall i :: 0 <= i < 5 ==> first[i] < 0x8000 && last[i] < 0x8000
    requires 16 * unit + 20 <= |data|
    requires forall i :: 0 <= i < 5 ==> Le32(data, 16 * unit + 4 * i) == Register(first[i], last[i])
    ensures BiosBounds(data).Ok? <==> first[1] == 0x1a0 && last[1] == 0x7ff
    ensures BiosBounds(data) == Err(NoBiosRegion) <==> first[1] > last[1]
  {
    hide Le32, Decoded, Register;
    DescriptorRoundTrip(data, low, unit, high, first, last);
    var rs := Decoded(data).value;
    SecondIsBios(rs);
  }

  lemma SecondIsBios(rs: seq<Region>)
    requires |rs| == 5 && rs[0].name == Fd && rs[1].name == Bios && rs[2].name == Me && rs[3].name == Gbe && rs[4].name == Pd
    ensures BiosOf(rs) == if rs[1].Used() then Some(rs[1]) else None
  {
    var r1 := rs[1..];
    var r2 := r1[1..];
    var r3 := r2[1..];
    var r4 := r3[1..];
    assert r1[0] == rs[1] && r2[0] == rs[2] && r3[0] == rs[3] && r4[0] == rs[4] && r4[1..] == [];
    assert BiosOf(r4) == None;
    assert BiosOf(r3) == None;
    assert BiosOf(r2) == None;
  }

  // ----- the descriptor is below the BIOS region

  lemma {:induction false} RegionsAgree(a: seq<Byte>, b: seq<Byte>, i: nat)
    requires |a| == |b| && |a| >= 0x1004 && a[..0x1004] == b[..0x1004] && i <= 5
    ensures RegionsFrom(a, i) == RegionsFrom(b, i)
    decreases 5 - i
  {
    hide Le32, BaseOf, LimitOf, RegisterBase;
    if i < 5 {
      SameBase(a, b);
      SameWord(a, b, RegisterBase(a) + 4 * i);
      RegionsAgree(a, b, i + 1);
    }
  }

  lemma SameBase(a: seq<Byte>, b: seq<Byte>)
    requires |a| >= 0x1004 && |b| >= 0x1004 && a[..0x1004] == b[..0x1004]
    ensures RegisterBase(a) == RegisterBase(b)
  {
    hide Le32;
    SameWord(a, b, 0x14);
  }

  lemma SameWord(a: seq<Byte>, b: seq<Byte>, at: nat)
    requires |a| >= 0x1004 && |b| >= 0x1004 && a[..0x1004] == b[..0x1004] && at + 4 <= 0x1004
    ensures Le32(a, at) == Le32(b, at)
  {
    var c, d := a[..0x1004], b[..0x1004];
    assert a[at] == c[at] && b[at] == d[at];
    assert a[at + 1] == c[at + 1] && b[at + 1] == d[at + 1];
    assert a[at + 2] == c[at + 2] && b[at + 2] == d[at + 2];
    assert a[at + 3] == c[at + 3] && b[at + 3] == d[at + 3];
  }

  /** Two images that agree below the BIOS region have the same descriptor. */
  lemma DescriptorAgrees(a: seq<Byte>, b: seq<Byte>)
    requires |a| == |b| == CHIP_SIZE && a[..BIOS_BASE] == b[..BIOS_BASE]
    ensures Decoded(a) == Decoded(b) && BiosBounds(a) == BiosBounds(b)
  {
    assert a[..0x1004] == a[..BIOS_BASE][..0x1004] && b[..0x1004] == b[..BIOS_BASE][..0x1004];
    SameWord(a, b, FLVALSIG_OFFSET);
    RegionsAgree(a, b, 0);
  }

  // ----- merging

  /** stock with the region taken from rom. */
  function Merged(stock: seq<Byte>, rom: seq<Byte>, base: nat, limit: nat): (m: seq<Byte>)
    requires base <= limit < |stock| && |rom| == |stock|
    ensures |m| == |stock|
  {
    stock[..base] + rom[base..limit + 1] + stock[limit + 1..]
  }

  /** The slice assignment of the merge, in place. */
  method MergeInPlace(s: array<Byte>, rom: seq<Byte>, base: nat, limit: nat)
    requires base <= limit < s.Length && |rom| == s.Length
    modifies s
    ensures s[..] == Merged(old(s[..]), rom, base, limit)
  {
    var i := base;
    while i < limit + 1
      invariant base <= i <= limit + 1
      invariant forall j :: 0 <= j < s.Length ==> s[j] == if base <= j < i then rom[j] else old(s[j])
    {
      s[i] := rom[i];
      i := i + 1;
    }
  }

  /** Erased flash, or this unit's own factory regions, below the BIOS region. */
  predicate HeadAllowed(rom: seq<Byte>, base: nat, stock: seq<Byte>)
    requires base <= |rom| && base <= |stock|
  {
    (forall i :: 0 <= i < base ==> rom[i] == 0xFF) || rom[..base] == stock[..base]
  }

  /** What the merge command produces. */
  function MergeResult(stock: seq<Byte>, rom: seq<Byte>): Result<seq<Byte>> {
    if |stock| != CHIP_SIZE || |rom| != CHIP_SIZE then Err(WrongSize)
    else
      var bounds := BiosBounds(stock);
      if bounds.Err? then Err(bounds.error)
      else if !HeadAllowed(rom, BIOS_BASE, stock) then Err(ForeignRegions)
      else Ok(Merged(stock, rom, BIOS_BASE, BIOS_LIMIT))
  }

  /**
   * A merge goes through exactly for two 8 MiB images of which the backup passes the check
   * and the ROM is erased below the BIOS region or holds the backup's own bytes there.
   */
  lemma MergesExactly(stock: seq<Byte>, rom: seq<Byte>)
    ensures MergeResult(stock, rom).Ok? <==>
            && |stock| == 0x80_0000 && |rom| == 0x80_0000 && BiosBounds(stock) == Ok((0x1a_0000, 0x7f_ffff))
            && (rom[..0x1a_0000] == stock[..0x1a_0000] || forall i :: 0 <= i < 0x1a_0000 ==> rom[i] == 0xFF)
  {
    if BiosBounds(stock).Ok? {
      BoundsAreExpected(stock);
    }
    hide BiosBounds;
  }

  /** The head of an image stripped of erased bytes on both sides is empty exactly when all of it is erased. */
  method RequireBiosRegionOnly(rom: seq<Byte>, base: nat, stock: seq<Byte>) returns (ok: bool)
    requires base <= |rom| && base <= |stock|
    ensures ok <==> HeadAllowed(rom, base, stock)
  {
    var i := 0;
    while i < base && rom[i] == 0xFF
      invariant 0 <= i <= base && forall j :: 0 <= j < i ==> rom[j] == 0xFF
    {
      i := i + 1;
    }
    if i == base {
      return true;
    }
    return rom[..base] == stock[..base];
  }

  method CmdMerge(stock: seq<Byte>, rom: seq<Byte>) returns (r: Result<seq<Byte>>)
    ensures r == MergeResult(stock, rom)
  {
    hide BiosBounds;
    if |stock| != CHIP_SIZE || |rom| != CHIP_SIZE {
      return Err(WrongSize);
    }
    var bounds := ExpectBios(stock);
    if bounds.Err? {
      return Err(bounds.error);
    }
    var (base, limit) := bounds.value;
    var allowed := RequireBiosRegionOnly(rom, base, stock);
    if !allowed {
      return Err(ForeignRegions);
    }
    var s := new Byte[|stock|](i requires 0 <= i < |stock| => stock[i]);
    assert s[..] == stock;
    MergeInPlace(s, rom, base, limit);
    return Ok(s[..]);
  }

  /**
   * A merge that goes through changes the BIOS region only, keeps the descriptor as it
   * decodes, and so passes the same check again.
   */
  lemma MergeKeepsTheRest(stock: seq<Byte>, rom: seq<Byte>)
    requires MergeResult(stock, rom).Ok?
    ensures
      var m := MergeResult(stock, rom).value;
      && |m| == CHIP_SIZE
      && (forall i :: 0 <= i < CHIP_SIZE ==> m[i] == if BIOS_BASE <= i <= BIOS_LIMIT then rom[i] else stock[i])
      && Decoded(m) == Decoded(stock)
      && BiosBounds(m) == Ok((BIOS_BASE, BIOS_LIMIT))
  {
    BoundsAreExpected(stock);
    hide BiosBounds, Decoded, Merged;
    MergedAt(stock, rom, BIOS_BASE, BIOS_LIMIT);
    DescriptorAgrees(stock, Merged(stock, rom, BIOS_BASE, BIOS_LIMIT));
  }

  lemma MergedAt(stock: seq<Byte>, rom: seq<Byte>, base: nat, limit: nat)
    requires base <= limit < |stock| && |rom| == |stock|
    ensures var m := Merged(stock, rom, base, limit);
            && m[..base] == stock[..base]
            && forall i :: 0 <= i < |stock| ==> m[i] == if base <= i <= limit then rom[i] else stock[i]
  {
  }

  lemma BoundsAreExpected(data: seq<Byte>)
    requires BiosBounds(data).Ok?
    ensures BiosBounds(data) == Ok((BIOS_BASE, BIOS_LIMIT))
  {
  }

  /** Merging the stock image back into a merged one goes through and restores it byte for byte. */
  lemma MergeBackRestores(stock: seq<Byte>, rom: seq<Byte>)
    requires MergeResult(stock, rom).Ok?
    ensures MergeResult(MergeResult(stock, rom).value, stock) == Ok(stock)
  {
    hide BiosBounds, Decoded;
    MergeKeepsTheRest(stock, rom);
    var m := MergeResult(stock, rom).value;
    assert m[..BIOS_BASE] == stock[..BIOS_BASE];
    assert Merged(m, stock, BIOS_BASE, BIOS_LIMIT) == stock;
  }

  /** Merging the same ROM again changes nothing. */
  lemma MergeIsIdempotent(stock: seq<Byte>, rom: seq<Byte>)
    requires MergeResult(stock, rom).Ok?
    ensures MergeResult(MergeResult(stock, rom).value, rom) == MergeResult(stock, rom)
  {
    hide BiosBounds, Decoded;
    MergeKeepsTheRest(stock, rom);
    var m := MergeResult(stock, rom).value;
    assert m[..BIOS_BASE] == stock[..BIOS_BASE];
    assert Merged(m, rom, BIOS_BASE, BIOS_LIMIT) == m;
  }

  /**
   * The chip after the region-limited write holds the merged image if and only if it held
   * the stock image outside the BIOS region.
   */
  lemma FlashLeavesTheMerge(chip: seq<Byte>, stock: seq<Byte>, rom: seq<Byte>)
    requires |chip| == CHIP_SIZE && MergeResult(stock, rom).Ok?
    ensures Merged(chip, rom, BIOS_BASE, BIOS_LIMIT) == MergeResult(stock, rom).value
       <==> chip[..BIOS_BASE] == stock[..BIOS_BASE]
  {
    hide BiosBounds, Decoded;
    var a, b := Merged(chip, rom, BIOS_BASE, BIOS_LIMIT), Merged(stock, rom, BIOS_BASE, BIOS_LIMIT);
    assert a[..BIOS_BASE] == chip[..BIOS_BASE] && b[..BIOS_BASE] == stock[..BIOS_BASE];
    assert chip[BIOS_LIMIT + 1..] == [] == stock[BIOS_LIMIT + 1..];
  }

  /** A ROM that embeds this unit's factory regions is itself the merged image, and no other is. */
  lemma FullRomIsTheMerge(stock: seq<Byte>, rom: seq<Byte>)
    requires MergeResult(stock, rom).Ok?
    ensures MergeResult(stock, rom).value == rom <==> rom[..BIOS_BASE] == stock[..BIOS_BASE]
  {
    hide BiosBounds, Decoded;
    var m := Merged(stock, rom, BIOS_BASE, BIOS_LIMIT);
    assert m[..BIOS_BASE] == stock[..BIOS_BASE];
    if rom[..BIOS_BASE] == stock[..BIOS_BASE] {
      assert m == rom[..BIOS_BASE] + rom[BIOS_BASE..];
      assert m == rom;
    }
  }
}
