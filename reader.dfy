/**
 * The reader as the program has it: an OlgaPvt object whose fields the read
 * updates in place, one PhysicalProperty object per catalog property, and the
 * loops of read_pvt, read_fluidf and read_physical_properties. Each method is
 * proved to leave the object in the state the functional model of TabModel
 * gives, so everything proved there holds of the object.
 */
module OlgaPvtReader {
  import opened Results
  import opened Text
  import opened Catalog
  import opened Grid
  import opened TabStream
  import opened FluidHeader
  import opened TabModel

  /** One property table of a tab file, with its description and unit. */
  class PhysicalProperty {
    var data: seq<seq<real>>
    var description: string
    var unit: string

    /** The fields as a value. */
    function Value(): Property
      reads this
    {
      Property(data, description, unit)
    }

    constructor ()
      ensures Value() == DEFAULT_PROPERTY
    {
      data := [];
      description := "unspecified";
      unit := "unspecified";
    }

    method SetData(d: seq<seq<real>>)
      modifies this
      ensures Value() == old(Value()).(data := d)
    {
      data := d;
    }

    method SetDescription(d: string)
      modifies this
      ensures Value() == old(Value()).(description := d)
    {
      description := d;
    }

    method SetUnit(u: string)
      modifies this
      ensures Value() == old(Value()).(unit := u)
    {
      unit := u;
    }
  }

  /** One newly constructed PhysicalProperty per catalog property, in catalog order, with the property each one holds. */
  method NewProperties() returns (m: map<PropertyId, PhysicalProperty>, ghost o: map<PhysicalProperty, PropertyId>)
    ensures forall id :: id in m && fresh(m[id]) && m[id].Value() == DEFAULT_PROPERTY
    ensures forall id :: m[id] in o && o[m[id]] == id
  {
    OrderIsPermutation();
    m, o := map[], map[];
    var k := 0;
    while k < |ORDER|
      invariant 0 <= k <= |ORDER|
      invariant forall id :: id in m <==> Rank(id) < k
      invariant forall id :: id in m ==> fresh(m[id]) && m[id].Value() == DEFAULT_PROPERTY
      invariant forall id :: id in m ==> m[id] in o && o[m[id]] == id
    {
      var p := new PhysicalProperty();
      m := m[ORDER[k] := p];
      o := o[p := ORDER[k]];
      k := k + 1;
    }
  }

  /** The slice assignment buf[at:at + len(ss)] = ss: the cells before at kept, ss written after them, the rest kept. */
  method CopyInto(buf: array<real>, at: nat, ss: seq<real>)
    requires at + |ss| <= buf.Length
    modifies buf
    ensures buf[..at + |ss|] == old(buf[..at]) + ss
    ensures buf[at + |ss|..] == old(buf[at + |ss|..])
  {
    var i := 0;
    while i < |ss|
      invariant 0 <= i <= |ss|
      invariant buf[..at] == old(buf[..at])
      invariant forall m :: 0 <= m < i ==> buf[at + m] == ss[m]
      invariant buf[at + |ss|..] == old(buf[at + |ss|..])
    {
      buf[at + i] := ss[i];
      i := i + 1;
    }
    assert buf[..at + |ss|] == buf[..at] + buf[at..at + |ss|];
  }

  /** The fields a read of one tab file sets, and the file it reads. */
  class OlgaPvt {
    const file: seq<Line>
    const props: map<PropertyId, PhysicalProperty>
    var eos: string
    var fluidName: string
    var n: int
    var ntabp: int
    var ntabt: int
    var rswtotb: real
    var pp: seq<real>
    var tt: seq<real>
    var pbb: seq<real>
    var pdew: seq<real>
    var waterOption: bool
    var entropy: bool
    var noneq: bool

    /** Which property each PhysicalProperty object holds. */
    ghost const owner: map<PhysicalProperty, PropertyId>

    /** Every catalog property has its own PhysicalProperty object. */
    ghost predicate Valid()
    {
      forall id :: id in props && props[id] in owner && owner[props[id]] == id
    }

    /** The property tables as values. */
    ghost function Tables(): map<PropertyId, Property>
      reads props.Values
    {
      map id | id in props :: props[id].Value()
    }

    /** N, the dimensions, RSWTOTB and the axes as a value. */
    ghost function LayoutFields(): Layout
      reads this
    {
      Layout(n, ntabp, ntabt, rswtotb, pp, tt, pbb, pdew)
    }

    /** The fields of the object itself as a value, the tables left empty. */
    ghost function Scalars(): Fluid
      reads this
    {
      Fluid(eos, fluidName, LayoutFields(), waterOption, entropy, noneq, map[])
    }

    /** The object's state as a value of the functional model. */
    ghost function Snapshot(): (f: Fluid)
      reads this, props.Values
      requires Valid()
      ensures Complete(f.props)
    {
      Scalars().(props := Tables())
    }

    /** An object for pvtFile, before anything is read: every field at its default. */
    constructor (pvtFile: seq<Line>)
      ensures Valid() && file == pvtFile
      ensures Snapshot() == Initial()
      ensures fresh(props.Values)
    {
      var m, o := NewProperties();
      file := pvtFile;
      props := m;
      owner := o;
      eos := "unspecified";
      fluidName := "unspecified";
      n := 0;
      ntabp := 0;
      ntabt := 0;
      rswtotb := 0.0;
      pp := [];
      tt := [];
      pbb := [];
      pdew := [];
      waterOption := false;
      entropy := false;
      noneq := false;
      new;
      assert forall id :: id in Tables() && Tables()[id] == DEFAULT_PROPERTY;
      InitialTables(Tables());
    }

    /**
     * The accumulation loop: from line pos on, the numbers of each line are
     * copied into a zeroed buffer of need cells after those already there,
     * until need numbers have been copied.
     */
    method Accumulate(pos: nat, need: nat) returns (r: Result<(seq<real>, nat), Error>)
      requires pos <= |file|
      ensures r == Gather(file, pos, need)
    {
      var buf := new real[need](_ => 0.0);
      var count := 0;
      var next := pos;
      PrefixedNothing(Gather(file, pos, need));
      assert buf[..count] == [];
      while count < need
        invariant pos <= next <= |file| && 0 <= count <= need
        invariant buf.Length == need
        invariant Gather(file, pos, need) == Prefixed(buf[..count], Gather(file, next, need - count))
        decreases |file| - next
      {
        if next == |file| {
          return Err(TruncatedStream);
        }
        var ss := file[next].numbers;
        if |ss| > need - count {
          return Err(Overshoot);
        }
        GatherResume(file, buf[..count], next, need - count);
        CopyInto(buf, count, ss);
        count := count + |ss|;
        next := next + 1;
      }
      assert buf[..count] == buf[..];
      assert buf[..count] + [] == buf[..count];
      r := Ok((buf[..], next));
    }

    /**
     * read_physical_properties: NTABT * NTABP numbers from line pos on,
     * stored as an NTABT by NTABP table filled column by column.
     */
    method ReadPhysicalProperties(pos: nat) returns (r: Result<(seq<seq<real>>, nat), Error>)
      requires pos <= |file|
      ensures r == GridSpec(ntabp, ntabt, file, pos)
    {
      var numData := ntabt * ntabp;
      if numData < 0 {
        return Err(NegativeDimension);
      }
      var tmp := Accumulate(pos, numData);
      if tmp.Err? {
        return Err(tmp.error);
      }
      if ntabt < 0 || ntabp < 0 {
        return Err(NegativeDimension);
      }
      r := Ok((Reshape(tmp.value.0, ntabt, ntabp), tmp.value.1));
    }

    /** Switches an option on. */
    method SetFlag(flag: Flag)
      modifies this`waterOption, this`entropy, this`noneq
      ensures waterOption == (old(waterOption) || flag == WaterOption)
      ensures entropy == (old(entropy) || flag == Entropy)
      ensures noneq == (old(noneq) || flag == Noneq)
    {
      match flag
      case WaterOption => waterOption := true;
      case Entropy => entropy := true;
      case Noneq => noneq := true;
    }

    /** The option search: each keyword found, in order, switches its option on and is cut out of the line. */
    method SearchFlags(cleaned: string) returns (line: string)
      modifies this`waterOption, this`entropy, this`noneq
      ensures var s := ScanFlags(cleaned, FLAG_ORDER);
        && line == s.rest
        && waterOption == (old(waterOption) || WaterOption in s.found)
        && entropy == (old(entropy) || Entropy in s.found)
        && noneq == (old(noneq) || Noneq in s.found)
    {
      line := cleaned;
      ghost var found: set<Flag> := {};
      var k := 0;
      while k < |FLAG_ORDER|
        invariant 0 <= k <= |FLAG_ORDER|
        invariant FlagScan(line, found) == ScanFlags(cleaned, FLAG_ORDER[..k])
        invariant waterOption == (old(waterOption) || WaterOption in found)
        invariant entropy == (old(entropy) || Entropy in found)
        invariant noneq == (old(noneq) || Noneq in found)
      {
        var flag := FLAG_ORDER[k];
        ScanFlagsNext(cleaned, FLAG_ORDER, k);
        if Contains(line, Keyword(flag)) {
          SetFlag(flag);
          line := RemoveAll(line, Keyword(flag));
          found := found + {flag};
        }
        k := k + 1;
      }
      assert FLAG_ORDER[..k] == FLAG_ORDER;
    }

    /** The EOS token extracted and cut out of the line, and what remains, stripped, the fluid name. */
    method ReadEosAndName(line0: string)
      modifies this`eos, this`fluidName
      ensures var e := ExtractEos(line0); eos == e.eos && fluidName == Strip(e.rest)
    {
      var line := line0;
      var at := Find(line, "EOS=");
      if at.Some? {
        var token := EosToken(line, at.value);
        var value := Strip(RemoveAll(token, "EOS="));
        if |value| == 0 {
          eos := "UNKNOWN";
        } else {
          eos := value;
        }
        line := RemoveAll(line, token);
      } else {
        eos := "UNKNOWN";
      }
      fluidName := Strip(line);
    }

    /**
     * The first half of read_fluidf: apostrophes removed and commas blanked,
     * the options searched, the EOS token extracted and the fluid name set.
     */
    method ReadHeaderLine(text: string)
      modifies this`eos, this`fluidName, this`waterOption, this`entropy, this`noneq
      ensures var h := DecodeHeader(text);
        && eos == h.eos && fluidName == h.name
        && waterOption == (old(waterOption) || WaterOption in h.flags)
        && entropy == (old(entropy) || Entropy in h.flags)
        && noneq == (old(noneq) || Noneq in h.flags)
    {
      var line := RemoveAll(text, "'");
      line := ReplaceChar(line, ',', ' ');
      assert line == Cleaned(text);
      line := SearchFlags(line);
      ReadEosAndName(line);
    }

    /** The dimension line at pos: NTABP, NTABT and RSWTOTB, then the zeroed axes and N. */
    method ReadDimensions(pos: nat) returns (err: Option<Error>)
      requires pos <= |file|
      modifies this`ntabp, this`ntabt, this`rswtotb, this`pp, this`tt, this`pbb, this`pdew, this`n
      ensures (LayoutFields(), err) == Dimensions(old(LayoutFields()), LineNumbers(file, pos))
    {
      var ss := LineNumbers(file, pos);
      if |ss| < 1 {
        return Some(MalformedDimensionLine);
      }
      ntabp := Trunc(ss[0]);
      if |ss| < 2 {
        return Some(MalformedDimensionLine);
      }
      ntabt := Trunc(ss[1]);
      if |ss| < 3 {
        return Some(MalformedDimensionLine);
      }
      rswtotb := ss[2];
      if ntabp < 0 {
        return Some(NegativeDimension);
      }
      pp := Zeros(ntabp);
      if ntabt < 0 {
        return Some(NegativeDimension);
      }
      tt := Zeros(ntabt);
      pbb := Zeros(ntabt);
      pdew := Zeros(ntabt);
      n := ntabp + 3 * ntabt;
      err := None;
    }

    /** The axes: N numbers read from pos on and cut into PP, TT, PBB and PDEW. */
    method ReadAxisData(pos: nat) returns (next: nat, err: Option<Error>)
      requires pos <= |file| && 0 <= ntabp && 0 <= ntabt && n == ntabp + 3 * ntabt
      modifies this`pp, this`tt, this`pbb, this`pdew
      ensures var a := FillAxes(old(LayoutFields()), file, pos);
        && LayoutFields() == a.0
        && if a.1.Ok? then err == None && next == a.1.value else err == Some(a.1.error)
    {
      var r := Accumulate(pos, n);
      if r.Err? {
        return pos, Some(r.error);
      }
      var a := SplitAxes(r.value.0, ntabp, ntabt);
      pp, tt, pbb, pdew := a.pp, a.tt, a.pbb, a.pdew;
      next, err := r.value.1, None;
    }

    /**
     * The second half of read_fluidf, pos being the line after the header
     * line: the dimensions, then the axes.
     */
    method ReadAxes(pos: nat) returns (next: nat, err: Option<Error>)
      requires pos <= |file|
      modifies this`ntabp, this`ntabt, this`rswtotb, this`pp, this`tt, this`pbb, this`pdew, this`n
      ensures var a := AxesSpec(old(LayoutFields()), file, pos);
        && LayoutFields() == a.0
        && if a.1.Ok? then err == None && next == a.1.value else err == Some(a.1.error)
    {
      err := ReadDimensions(pos);
      if err.Some? {
        return pos, err;
      }
      next, err := ReadAxisData(pos + 1);
    }

    /** read_fluidf: the header line text, whose dimension line is at pos. */
    method ReadFluidf(text: string, pos: nat) returns (next: nat, err: Option<Error>)
      requires Valid() && pos <= |file|
      modifies this
      ensures Valid()
      ensures var r := ReadFluidfSpec(old(Snapshot()), text, file, pos);
        Snapshot() == r.fluid && (if r.Next? then err == None && next == r.pos else err == Some(r.error))
    {
      ghost var f := Snapshot();
      ghost var h := DecodeHeader(text);
      label start:
      ReadHeaderLine(text);
      assert Scalars() == WithHeader(f, h).(props := map[]);
      next, err := ReadAxes(pos);
      TablesKept@start();
      assert Scalars() == WithHeader(f, h).(layout := AxesSpec(f.layout, file, pos).0, props := map[]);
    }

    /** The search of the catalog: the first property, in catalog order, whose phrase occurs in s. */
    method FindSection(s: string) returns (r: Option<PropertyId>)
      ensures r == Classify(s)
    {
      var k := 0;
      while k < |ORDER|
        invariant 0 <= k <= |ORDER|
        invariant FirstMatchFrom(s, PHRASES, k) == FirstMatchFrom(s, PHRASES, 0)
      {
        if Contains(s, PHRASES[k]) {
          return Some(ORDER[k]);
        }
        k := k + 1;
      }
      return None;
    }

    /**
     * A property section whose header line gave unit, its data starting at
     * pos: the unit is set, then the table is read and set, then the description.
     */
    method ReadSection(id: PropertyId, unit: string, pos: nat) returns (next: nat, err: Option<Error>)
      requires Valid() && pos <= |file|
      modifies props[id]
      ensures Valid()
      ensures var r := ReadPropertySpec(old(Snapshot()), id, unit, file, pos);
        Snapshot() == r.fluid && (if r.Next? then err == None && next == r.pos else err == Some(r.error))
    {
      ghost var f := Snapshot();
      ghost var f1 := f.(props := f.props[id := f.props[id].(unit := unit)]);
      SetUnitOf(id, unit);
      assert Snapshot() == f1;
      var tmp := ReadPhysicalProperties(pos);
      assert tmp == GridSpec(f.layout.ntabp, f.layout.ntabt, file, pos);
      if tmp.Err? {
        assert ReadPropertySpec(f, id, unit, file, pos) == Stop(f1, tmp.error);
        return pos, Some(tmp.error);
      }
      StoreTable(id, tmp.value.0);
      assert ReadPropertySpec(f, id, unit, file, pos)
          == Next(f1.(props := f1.props[id := Property(tmp.value.0, Description(id), unit)]), tmp.value.1);
      next, err := tmp.value.1, None;
    }

    /** The unit of property id set from its section header. */
    method SetUnitOf(id: PropertyId, unit: string)
      requires Valid()
      modifies props[id]
      ensures Tables() == old(Tables())[id := old(Tables())[id].(unit := unit)]
    {
      props[id].SetUnit(unit);
      OneTableChanged(id);
    }

    /** The table read for property id stored with its description, its unit kept. */
    method StoreTable(id: PropertyId, d: seq<seq<real>>)
      requires Valid()
      modifies props[id]
      ensures Tables() == old(Tables())[id := Property(d, Description(id), old(Tables())[id].unit)]
    {
      props[id].SetData(d);
      props[id].SetDescription(Description(id));
      OneTableChanged(id);
    }

    /** The tables are kept while no property object changes. */
    twostate lemma TablesKept()
      requires forall id :: id in props ==> unchanged(props[id])
      ensures Tables() == old(Tables())
    {
    }

    /** A change to the object of property id alone changes that property's table alone. */
    twostate lemma OneTableChanged(id: PropertyId)
      requires Valid()
      requires forall other :: other != id ==> unchanged(props[other])
      ensures Tables() == old(Tables())[id := props[id].Value()]
    {
      forall other | other != id ensures props[other] != props[id] {
        assert owner[props[other]] != owner[props[id]];
      }
    }

    /** One pass of read_pvt's loop: the line at pos is dispatched on its stripped text. */
    method ReadLine(pos: nat) returns (next: nat, err: Option<Error>)
      requires Valid() && pos < |file|
      modifies this, props.Values
      ensures Valid()
      ensures var r := Step(old(Snapshot()), file, pos);
        Snapshot() == r.fluid && (if r.Next? then err == None && next == r.pos else err == Some(r.error))
    {
      ghost var f := Snapshot();
      var text := file[pos].text;
      var s := Strip(text);
      if HasQuotedSpan(s) {
        assert Step(f, file, pos) == ReadFluidfSpec(f, text, file, pos + 1);
        next, err := ReadFluidf(text, pos + 1);
        return;
      }
      var found := FindSection(s);
      if found.Some? {
        var id := found.value;
        var unit := Strip(RemoveAll(s, Phrase(id)));
        assert Step(f, file, pos) == ReadPropertySpec(f, id, unit, file, pos + 1);
        next, err := ReadSection(id, unit, pos + 1);
        return;
      }
      assert Step(f, file, pos) == Next(f, pos + 1);
      next, err := pos + 1, None;
    }

    /** read_pvt: the file read line by line to its end, or until a read fails. */
    method ReadPvt() returns (err: Option<Error>)
      requires Valid()
      modifies this, props.Values
      ensures Valid()
      ensures (Snapshot(), err) == Parse(old(Snapshot()), file, 0)
    {
      var pos := 0;
      while pos < |file|
        invariant pos <= |file| && Valid()
        invariant Parse(old(Snapshot()), file, 0) == Parse(Snapshot(), file, pos)
        decreases |file| - pos
      {
        var next, e := ReadLine(pos);
        if e.Some? {
          return e;
        }
        pos := next;
      }
      return None;
    }
  }
}
