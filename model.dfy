/**
 * The reader as a function of the file: the state of an OlgaPvt object as a
 * value, what one line of the file does to it, and the whole read, line by
 * line from the top. The class in OlgaPvtReader is proved to compute the same.
 */
module TabModel {
  import opened Results
  import opened Text
  import opened Catalog
  import opened Grid
  import opened TabStream
  import opened FluidHeader

  /** A PhysicalProperty's fields: the table, its description and its unit. */
  datatype Property = Property(data: seq<seq<real>>, description: string, unit: string)

  /** A PhysicalProperty as constructed. */
  const DEFAULT_PROPERTY: Property := Property([], "unspecified", "unspecified")

  /** The fields read_fluidf sets from the lines after the header line: N, the dimensions, RSWTOTB and the axes. */
  datatype Layout = Layout(
    n: int, ntabp: int, ntabt: int, rswtotb: real,
    pp: seq<real>, tt: seq<real>, pbb: seq<real>, pdew: seq<real>)

  /** The fields of an OlgaPvt object, the tables included. */
  datatype Fluid = Fluid(
    eos: string, fluidName: string, layout: Layout,
    waterOption: bool, entropy: bool, noneq: bool,
    props: map<PropertyId, Property>)

  /** Every property of the catalog has its table. */
  predicate Complete(props: map<PropertyId, Property>)
  {
    forall id :: id in props
  }

  /** The state of a newly constructed OlgaPvt object. */
  function Initial(): (f: Fluid)
    ensures Complete(f.props) && forall id :: f.props[id] == DEFAULT_PROPERTY
    ensures f.eos == "unspecified" && f.fluidName == "unspecified"
    ensures f.layout == Layout(0, 0, 0, 0.0, [], [], [], [])
    ensures !f.waterOption && !f.entropy && !f.noneq
  {
    OrderIsPermutation();
    Fluid("unspecified", "unspecified", Layout(0, 0, 0, 0.0, [], [], [], []), false, false, false,
          map id | id in ORDER :: DEFAULT_PROPERTY)
  }

  /** Tables that are all as constructed are those of a newly constructed object. */
  lemma InitialTables(p: map<PropertyId, Property>)
    requires forall id :: id in p && p[id] == DEFAULT_PROPERTY
    ensures p == Initial().props
  {
  }

  /** The value of a boolean option. */
  function FlagOn(f: Fluid, flag: Flag): bool
  {
    match flag
    case WaterOption => f.waterOption
    case Entropy => f.entropy
    case Noneq => f.noneq
  }

  /** The fields set from a decoded header line: options are switched on, never off. */
  function WithHeader(f: Fluid, h: Header): (g: Fluid)
    ensures g.eos == h.eos && g.fluidName == h.name
    ensures forall flag :: FlagOn(g, flag) == (FlagOn(f, flag) || flag in h.flags)
    ensures g == f.(eos := g.eos, fluidName := g.fluidName,
                    waterOption := g.waterOption, entropy := g.entropy, noneq := g.noneq)
  {
    var g := f.(eos := h.eos, fluidName := h.name,
                waterOption := f.waterOption || WaterOption in h.flags,
                entropy := f.entropy || Entropy in h.flags,
                noneq := f.noneq || Noneq in h.flags);
    assert forall flag :: FlagOn(g, flag) == (FlagOn(f, flag) || flag in h.flags) by {
      forall flag ensures FlagOn(g, flag) == (FlagOn(f, flag) || flag in h.flags) {
        if flag == WaterOption {
          assert FlagOn(g, flag) == g.waterOption;
        } else if flag == Entropy {
          assert FlagOn(g, flag) == g.entropy;
        } else {
          assert FlagOn(g, flag) == g.noneq;
        }
      }
    }
    g
  }

  /** What a step leaves: the state and where reading goes on, or the state when an error ended the read. */
  datatype StepResult = Next(fluid: Fluid, pos: nat) | Stop(fluid: Fluid, error: Error)

  /** The numbers readline gives at pos: those of the line, or none once the file is exhausted. */
  function LineNumbers(file: seq<Line>, pos: nat): (ss: seq<real>)
    requires pos <= |file|
    ensures pos == |file| ==> ss == []
    ensures pos < |file| ==> ss == file[pos].numbers
  {
    if pos == |file| then [] else file[pos].numbers
  }

  /**
   * The dimension line of read_fluidf, ss being its numbers: NTABP, NTABT and
   * RSWTOTB are set in turn, each once the line is known to hold it; then,
   * each dimension checked to be non-negative before its axes are zeroed,
   * PP gets NTABP zeros, TT, PBB and PDEW NTABT zeros each, and N is set to
   * the count of axis numbers to read. An error comes with the fields set
   * before it.
   */
  function Dimensions(l: Layout, ss: seq<real>): (r: (Layout, Option<Error>))
    ensures r.1 == None || r.1 == Some(MalformedDimensionLine) || r.1 == Some(NegativeDimension)
    ensures r.1 == None ==> var m := r.0;
      && 0 <= m.ntabp && 0 <= m.ntabt && m.n == m.ntabp + 3 * m.ntabt
      && |m.pp| == m.ntabp && |m.tt| == m.ntabt && |m.pbb| == m.ntabt && |m.pdew| == m.ntabt
  {
    if |ss| < 1 then (l, Some(MalformedDimensionLine))
    else
      var l2 := l.(ntabp := Trunc(ss[0]));
      if |ss| < 2 then (l2, Some(MalformedDimensionLine))
      else
        var l3 := l2.(ntabt := Trunc(ss[1]));
        if |ss| < 3 then (l3, Some(MalformedDimensionLine))
        else
          var l4 := l3.(rswtotb := ss[2]);
          if l4.ntabp < 0 then (l4, Some(NegativeDimension))
          else
            var l5 := l4.(pp := Zeros(l4.ntabp));
            if l5.ntabt < 0 then (l5, Some(NegativeDimension))
            else (l5.(tt := Zeros(l5.ntabt), pbb := Zeros(l5.ntabt), pdew := Zeros(l5.ntabt),
                      n := l5.ntabp + 3 * l5.ntabt), None)
  }

  /**
   * The axes of read_fluidf: N numbers read from pos on and cut into PP, TT,
   * PBB and PDEW. A failed read leaves the fields as they were; a read that
   * succeeds changes only the four axes.
   */
  function FillAxes(l: Layout, file: seq<Line>, pos: nat): (r: (Layout, Result<nat, Error>))
    requires pos <= |file| && 0 <= l.ntabp && 0 <= l.ntabt && l.n == l.ntabp + 3 * l.ntabt
    ensures r.1.Err? ==> r.0 == l && (r.1.error == TruncatedStream || r.1.error == Overshoot)
    ensures r.1.Ok? ==> var m := r.0;
      && pos <= r.1.value <= |file|
      && m == l.(pp := m.pp, tt := m.tt, pbb := m.pbb, pdew := m.pdew)
      && |m.pp| == l.ntabp && |m.tt| == l.ntabt && |m.pbb| == l.ntabt && |m.pdew| == l.ntabt
      && m.pp + m.tt + m.pbb + m.pdew == Flat(file, pos, r.1.value)
  {
    match Gather(file, pos, l.n)
    case Err(e) => (l, Err(e))
    case Ok((data, next)) =>
      var a := SplitAxes(data, l.ntabp, l.ntabt);
      (l.(pp := a.pp, tt := a.tt, pbb := a.pbb, pdew := a.pdew), Ok(next))
  }

  /**
   * The second half of read_fluidf, pos being the line after the header
   * line: the dimension line at pos, then the axes from the line after it.
   */
  function AxesSpec(l: Layout, file: seq<Line>, pos: nat): (r: (Layout, Result<nat, Error>))
    requires pos <= |file|
    ensures r.1.Ok? ==> pos < r.1.value <= |file|
  {
    var d := Dimensions(l, LineNumbers(file, pos));
    if d.1.Some? then (d.0, Err(d.1.value))
    else
      assert pos < |file|;
      FillAxes(d.0, file, pos + 1)
  }

  /**
   * read_fluidf, once its header line text is read and pos is the line after
   * it: the header fields are set, then the dimensions and the axes are read.
   */
  function ReadFluidfSpec(f: Fluid, text: string, file: seq<Line>, pos: nat): (r: StepResult)
    requires pos <= |file|
    ensures r.Next? ==> pos < r.pos <= |file|
    ensures r.fluid.props == f.props
    ensures r.fluid.eos == DecodeHeader(text).eos && r.fluid.fluidName == DecodeHeader(text).name
    ensures forall flag :: FlagOn(r.fluid, flag) == (FlagOn(f, flag) || flag in DecodeHeader(text).flags)
    ensures var a := AxesSpec(f.layout, file, pos);
      r.fluid.layout == a.0 && (r.Next? <==> a.1.Ok?) && (r.Next? ==> r.pos == a.1.value) && (r.Stop? ==> r.error == a.1.error)
  {
    var g := WithHeader(f, DecodeHeader(text));
    var a := AxesSpec(g.layout, file, pos);
    match a.1
    case Ok(next) => Next(g.(layout := a.0), next)
    case Err(e) => Stop(g.(layout := a.0), e)
  }

  /**
   * read_physical_properties from pos: NTABT * NTABP numbers read and stored
   * as an NTABT by NTABP table, column by column. A negative product fails
   * before reading, a negative dimension after it.
   */
  function GridSpec(ntabp: int, ntabt: int, file: seq<Line>, pos: nat): (r: Result<(seq<seq<real>>, nat), Error>)
    requires pos <= |file|
    ensures r.Ok? ==> 0 <= ntabp && 0 <= ntabt && pos <= r.value.1 <= |file|
    ensures r.Ok? ==> var g := r.value.0; var flat := Flat(file, pos, r.value.1);
      && |g| == ntabt && (forall j :: 0 <= j < ntabt ==> |g[j]| == ntabp)
      && |flat| == ntabt * ntabp
      && forall j, i :: 0 <= j < ntabt && 0 <= i < ntabp ==>
           Offset(ntabt, i, j) < |flat| && g[j][i] == flat[Offset(ntabt, i, j)]
    ensures (ntabp < 0 || ntabt < 0) ==> r.Err?
    ensures r == Err(NegativeDimension) ==> ntabp < 0 || ntabt < 0
  {
    var need := ntabt * ntabp;
    if need < 0 then Err(NegativeDimension)
    else match Gather(file, pos, need)
      case Err(e) => Err(e)
      case Ok((flat, next)) =>
        if ntabt < 0 || ntabp < 0 then Err(NegativeDimension)
        else Ok((Reshape(flat, ntabt, ntabp), next))
  }

  /**
   * The section of property id, whose header line gave unit, with its data
   * from pos on: the unit is set, then the table and the description, and
   * nothing else changes.
   */
  function ReadPropertySpec(f: Fluid, id: PropertyId, unit: string, file: seq<Line>, pos: nat): (r: StepResult)
    requires pos <= |file| && Complete(f.props)
    ensures Complete(r.fluid.props)
    ensures r.fluid == f.(props := r.fluid.props)
    ensures forall other :: other != id ==> r.fluid.props[other] == f.props[other]
    ensures r.Stop? <==> GridSpec(f.layout.ntabp, f.layout.ntabt, file, pos).Err?
    ensures r.Stop? ==> r.fluid.props[id] == f.props[id].(unit := unit)
    ensures r.Stop? ==> r.error == GridSpec(f.layout.ntabp, f.layout.ntabt, file, pos).error
    ensures r.Next? ==> pos <= r.pos <= |file|
    ensures r.Next? ==> GridSpec(f.layout.ntabp, f.layout.ntabt, file, pos) == Ok((r.fluid.props[id].data, r.pos))
    ensures r.Next? ==> r.fluid.props[id].description == Description(id) && r.fluid.props[id].unit == unit
  {
    var f1 := f.(props := f.props[id := f.props[id].(unit := unit)]);
    match GridSpec(f.layout.ntabp, f.layout.ntabt, file, pos)
    case Err(e) => Stop(f1, e)
    case Ok((g, next)) => Next(f1.(props := f1.props[id := Property(g, Description(id), unit)]), next)
  }

  /** What read_pvt does with a line, decided on the line stripped. */
  datatype Action = FluidLine | Section(id: PropertyId, unit: string) | Skip

  /**
   * A line whose stripped text holds two apostrophes is a fluid header;
   * otherwise the first catalog property whose phrase occurs in it opens a
   * section, the unit being what remains once the phrase is cut out;
   * any other line is passed over.
   */
  function Dispatch(text: string): (a: Action)
    ensures a.FluidLine? <==> exists i, j :: QuotedSpan(Strip(text), i, j)
    ensures a.Section? ==> Contains(Strip(text), Phrase(a.id))
    ensures a.Section? ==> forall id :: Rank(id) < Rank(a.id) ==> !Contains(Strip(text), Phrase(id))
    ensures a.Section? ==> a.unit == Strip(RemoveAll(Strip(text), Phrase(a.id)))
    ensures a.Skip? <==> (forall i, j :: !QuotedSpan(Strip(text), i, j)) && forall id :: !Contains(Strip(text), Phrase(id))
  {
    var s := Strip(text);
    if HasQuotedSpan(s) then FluidLine
    else match Classify(s)
      case Some(id) => Section(id, Strip(RemoveAll(s, Phrase(id))))
      case None => Skip
  }

  /** One pass of read_pvt's loop at line pos. */
  function Step(f: Fluid, file: seq<Line>, pos: nat): (r: StepResult)
    requires pos < |file| && Complete(f.props)
    ensures Complete(r.fluid.props)
    ensures r.Next? ==> pos < r.pos <= |file|
  {
    match Dispatch(file[pos].text)
    case FluidLine => ReadFluidfSpec(f, file[pos].text, file, pos + 1)
    case Section(id, unit) => ReadPropertySpec(f, id, unit, file, pos + 1)
    case Skip => Next(f, pos + 1)
  }

  /** read_pvt from line pos on: the final state, and the error that ended the read if one did. */
  function Parse(f: Fluid, file: seq<Line>, pos: nat): (r: (Fluid, Option<Error>))
    requires pos <= |file| && Complete(f.props)
    ensures Complete(r.0.props)
    decreases |file| - pos
  {
    if pos == |file| then (f, None)
    else match Step(f, file, pos)
      case Stop(g, e) => (g, Some(e))
      case Next(g, next) => Parse(g, file, next)
  }

  /** A newly constructed OlgaPvt object after read_pvt. */
  function ReadPvt(file: seq<Line>): (r: (Fluid, Option<Error>))
    ensures Complete(r.0.props)
  {
    Parse(Initial(), file, 0)
  }
}
