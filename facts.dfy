/**
 * What the read promises, stated over the functional model: how the fluid
 * header's numbers are laid out, when each error arises, that lines opening
 * nothing are passed over, that a section changes only its own property and
 * the last section of a property wins, and that options are never switched off.
 */
module TabFacts {
  import opened Results
  import opened Catalog
  import opened Grid
  import opened TabStream
  import opened FluidHeader
  import opened TabModel

  /**
   * The dimension line: NTABP, NTABT and RSWTOTB come from its first three
   * numbers, each set only once those before it exist, and a negative
   * dimension is reported only once all three are read.
   */
  lemma HeaderDimensions(l: Layout, file: seq<Line>, pos: nat)
    requires pos <= |file|
    ensures var r := AxesSpec(l, file, pos); var ss := LineNumbers(file, pos);
      && (r.1 == Err(MalformedDimensionLine) <==> |ss| < 3)
      && (if |ss| >= 1 then r.0.ntabp == Trunc(ss[0]) else r.0.ntabp == l.ntabp)
      && (if |ss| >= 2 then r.0.ntabt == Trunc(ss[1]) else r.0.ntabt == l.ntabt)
      && (if |ss| >= 3 then r.0.rswtotb == ss[2] else r.0.rswtotb == l.rswtotb)
      && (|ss| >= 3 ==> (r.1 == Err(NegativeDimension) <==> Trunc(ss[0]) < 0 || Trunc(ss[1]) < 0))
  {
  }

  /**
   * A header read that succeeds leaves PP, TT, PBB and PDEW of lengths NTABP,
   * NTABT, NTABT, NTABT holding, in that order, the N = NTABP + 3 * NTABT
   * numbers of the lines after the dimension line, read up to the first line
   * that completes the count.
   */
  lemma HeaderAxes(l: Layout, file: seq<Line>, pos: nat)
    requires pos <= |file| && AxesSpec(l, file, pos).1.Ok?
    ensures var r := AxesSpec(l, file, pos); var g := r.0; var start := pos + 1; var next := r.1.value;
      && pos < |file| && 0 <= g.ntabp && 0 <= g.ntabt && g.n == g.ntabp + 3 * g.ntabt
      && |g.pp| == g.ntabp && |g.tt| == g.ntabt && |g.pbb| == g.ntabt && |g.pdew| == g.ntabt
      && g.pp + g.tt + g.pbb + g.pdew == Flat(file, start, next)
      && forall k :: start <= k < next ==> |Flat(file, start, k)| < g.n
  {
    var ss := LineNumbers(file, pos);
    var n: nat := Trunc(ss[0]) + 3 * Trunc(ss[1]);
    GatherStopsWhenComplete(file, pos + 1, n);
  }

  /** Once the dimensions are read and valid, the header read fails for lack of input exactly when the rest of the file holds fewer than N numbers. */
  lemma HeaderTruncated(l: Layout, file: seq<Line>, pos: nat)
    requires pos < |file|
    requires var ss := file[pos].numbers; |ss| >= 3 && Trunc(ss[0]) >= 0 && Trunc(ss[1]) >= 0
    ensures var ss := file[pos].numbers;
      AxesSpec(l, file, pos).1 == Err(TruncatedStream) <==> |Flat(file, pos + 1, |file|)| < Trunc(ss[0]) + 3 * Trunc(ss[1])
  {
    var ss := file[pos].numbers;
    var n: nat := Trunc(ss[0]) + 3 * Trunc(ss[1]);
    GatherTruncatedIff(file, pos + 1, n);
  }

  /** A property table with valid dimensions fails for lack of input exactly when the rest of the file holds fewer than NTABT * NTABP numbers. */
  lemma GridTruncated(ntabp: int, ntabt: int, file: seq<Line>, pos: nat)
    requires pos <= |file| && 0 <= ntabp && 0 <= ntabt
    ensures GridSpec(ntabp, ntabt, file, pos) == Err(TruncatedStream) <==> |Flat(file, pos, |file|)| < ntabt * ntabp
  {
    GatherTruncatedIff(file, pos, ntabt * ntabp);
  }

  /** A property table read that succeeds stops at the first line that completes the NTABT * NTABP numbers. */
  lemma GridStopsWhenComplete(ntabp: int, ntabt: int, file: seq<Line>, pos: nat)
    requires pos <= |file| && GridSpec(ntabp, ntabt, file, pos).Ok?
    ensures var next := GridSpec(ntabp, ntabt, file, pos).value.1;
      forall k :: pos <= k < next ==> |Flat(file, pos, k)| < ntabt * ntabp
  {
    GatherStopsWhenComplete(file, pos, ntabt * ntabp);
  }

  /**
   * Conversely, with valid dimensions, lines that supply exactly NTABT * NTABP
   * numbers, no shorter run of them enough, are read successfully: the table
   * is their numbers reshaped column by column, and reading resumes after them.
   */
  lemma GridExact(ntabp: int, ntabt: int, file: seq<Line>, pos: nat, next: nat)
    requires pos <= next <= |file| && 0 <= ntabp && 0 <= ntabt && ExactRun(file, pos, next, ntabt * ntabp)
    ensures GridSpec(ntabp, ntabt, file, pos) == Ok((Reshape(Flat(file, pos, next), ntabt, ntabp), next))
  {
    GatherExact(file, pos, ntabt * ntabp, next);
  }

  /**
   * Read-back of a table: lines that carry a table of NTABT rows and NTABP
   * columns as Serialize writes it, column by column, are read back as that
   * very table.
   */
  lemma GridRoundTrip(ntabp: int, ntabt: int, file: seq<Line>, pos: nat, next: nat, g: seq<seq<real>>)
    requires pos <= next <= |file| && 0 <= ntabp && ntabt == |g| && Shaped(g, ntabp)
    requires Flat(file, pos, next) == Serialize(g, ntabp) && ExactRun(file, pos, next, ntabt * ntabp)
    ensures GridSpec(ntabp, ntabt, file, pos) == Ok((g, next))
  {
    GridExact(ntabp, ntabt, file, pos, next);
    ReshapeSerialize(g, ntabp);
  }

  /**
   * The success direction of the axes read: lines that supply exactly N
   * numbers, no shorter run of them enough, are cut into PP, TT, PBB and PDEW
   * in that order, and nothing else in the layout changes.
   */
  lemma FillExact(l: Layout, file: seq<Line>, pos: nat, next: nat)
    requires pos <= next <= |file| && 0 <= l.ntabp && 0 <= l.ntabt && l.n == l.ntabp + 3 * l.ntabt
    requires ExactRun(file, pos, next, l.n)
    ensures var a := SplitAxes(Flat(file, pos, next), l.ntabp, l.ntabt);
      FillAxes(l, file, pos) == (l.(pp := a.pp, tt := a.tt, pbb := a.pbb, pdew := a.pdew), Ok(next))
  {
    GatherExact(file, pos, l.n, next);
  }

  /**
   * The success direction of the header's second half: a dimension line with
   * three numbers and non-negative dimensions, followed by lines that supply
   * exactly N numbers, no shorter run of them enough, sets the dimensions and
   * RSWTOTB and cuts those numbers into the four axes.
   */
  lemma AxesExact(l: Layout, file: seq<Line>, pos: nat, next: nat)
    requires pos < next <= |file|
    requires var ss := file[pos].numbers; |ss| >= 3 && Trunc(ss[0]) >= 0 && Trunc(ss[1]) >= 0
    requires var ss := file[pos].numbers; ExactRun(file, pos + 1, next, Trunc(ss[0]) + 3 * Trunc(ss[1]))
    ensures var ss := file[pos].numbers; var ntabp: nat := Trunc(ss[0]); var ntabt: nat := Trunc(ss[1]);
      var a := SplitAxes(Flat(file, pos + 1, next), ntabp, ntabt);
      AxesSpec(l, file, pos) == (Layout(ntabp + 3 * ntabt, ntabp, ntabt, ss[2], a.pp, a.tt, a.pbb, a.pdew), Ok(next))
  {
    var ss := file[pos].numbers;
    GatherExact(file, pos + 1, Trunc(ss[0]) + 3 * Trunc(ss[1]), next);
  }

  /**
   * Read-back of the header's axes: when the lines after a dimension line
   * giving |pp| and |tt| carry pp, tt, pbb and pdew in that order, the read
   * gives back exactly those four sequences.
   */
  lemma HeaderRoundTrip(l: Layout, file: seq<Line>, pos: nat, next: nat, a: Axes)
    requires pos < next <= |file| && |a.tt| == |a.pbb| == |a.pdew|
    requires var ss := file[pos].numbers; |ss| >= 3 && Trunc(ss[0]) == |a.pp| && Trunc(ss[1]) == |a.tt|
    requires Flat(file, pos + 1, next) == a.pp + a.tt + a.pbb + a.pdew
    requires ExactRun(file, pos + 1, next, |a.pp| + 3 * |a.tt|)
    ensures var r := AxesSpec(l, file, pos);
      && r.1 == Ok(next) && r.0.ntabp == |a.pp| && r.0.ntabt == |a.tt|
      && r.0.pp == a.pp && r.0.tt == a.tt && r.0.pbb == a.pbb && r.0.pdew == a.pdew
  {
    AxesExact(l, file, pos, next);
    SplitJoin(a);
  }

  /** A line that opens the section of id makes the pass that section's read, with the line's unit. */
  lemma StepSection(f: Fluid, file: seq<Line>, pos: nat, id: PropertyId)
    requires pos < |file| && Complete(f.props) && OpensSection(file[pos].text, id)
    ensures Step(f, file, pos) == ReadPropertySpec(f, id, Dispatch(file[pos].text).unit, file, pos + 1)
  {
  }

  /**
   * A section of id whose table is read successfully: the pass stores that
   * table with the section's unit and the catalog description, changing
   * nothing else, and reading resumes after the table.
   */
  lemma SectionStored(f: Fluid, file: seq<Line>, pos: nat, id: PropertyId, g: seq<seq<real>>, next: nat)
    requires pos < |file| && Complete(f.props) && OpensSection(file[pos].text, id)
    requires GridSpec(f.layout.ntabp, f.layout.ntabt, file, pos + 1) == Ok((g, next))
    ensures Step(f, file, pos)
         == Next(f.(props := f.props[id := Property(g, Description(id), Dispatch(file[pos].text).unit)]), next)
  {
    var unit := Dispatch(file[pos].text).unit;
    StepSection(f, file, pos, id);
    SectionRead(f, id, unit, file, pos + 1, g, next);
  }

  /** The section read of id, its table read successfully, changes only that property. */
  lemma SectionRead(f: Fluid, id: PropertyId, unit: string, file: seq<Line>, pos: nat, g: seq<seq<real>>, next: nat)
    requires pos <= |file| && Complete(f.props)
    requires GridSpec(f.layout.ntabp, f.layout.ntabt, file, pos) == Ok((g, next))
    ensures ReadPropertySpec(f, id, unit, file, pos) == Next(f.(props := f.props[id := Property(g, Description(id), unit)]), next)
  {
    var f1 := f.(props := f.props[id := f.props[id].(unit := unit)]);
    assert f1.props[id := Property(g, Description(id), unit)] == f.props[id := Property(g, Description(id), unit)];
  }

  /**
   * A section header followed by fewer numbers than NTABT * NTABP, with valid
   * dimensions, ends the pass with TruncatedStream, the unit already set.
   */
  lemma SectionTruncated(f: Fluid, file: seq<Line>, pos: nat, id: PropertyId)
    requires pos < |file| && Complete(f.props) && OpensSection(file[pos].text, id)
    requires 0 <= f.layout.ntabp && 0 <= f.layout.ntabt
    requires |Flat(file, pos + 1, |file|)| < f.layout.ntabt * f.layout.ntabp
    ensures Step(f, file, pos).Stop? && Step(f, file, pos).error == TruncatedStream
    ensures Step(f, file, pos).fluid.props[id] == f.props[id].(unit := Dispatch(file[pos].text).unit)
  {
    SectionReadTruncated(f, id, Dispatch(file[pos].text).unit, file, pos + 1);
    StepSection(f, file, pos, id);
  }

  /** The section read of id, with too few numbers left in the file, stops with TruncatedStream once the unit is set. */
  lemma SectionReadTruncated(f: Fluid, id: PropertyId, unit: string, file: seq<Line>, pos: nat)
    requires pos <= |file| && Complete(f.props) && 0 <= f.layout.ntabp && 0 <= f.layout.ntabt
    requires |Flat(file, pos, |file|)| < f.layout.ntabt * f.layout.ntabp
    ensures var r := ReadPropertySpec(f, id, unit, file, pos);
      r == Stop(f.(props := f.props[id := f.props[id].(unit := unit)]), TruncatedStream)
  {
    GridTruncated(f.layout.ntabp, f.layout.ntabt, file, pos);
  }

  /**
   * Read-back of a property table: when the lines after a section header of
   * id carry a table of NTABT rows and NTABP columns as Serialize writes it,
   * the pass reads that very table back and stores it with the section's unit
   * and the catalog description, changing nothing else.
   */
  lemma SectionRoundTrip(f: Fluid, file: seq<Line>, pos: nat, id: PropertyId, g: seq<seq<real>>, next: nat)
    requires pos < |file| && Complete(f.props) && OpensSection(file[pos].text, id)
    requires pos + 1 <= next <= |file| && 0 <= f.layout.ntabp && f.layout.ntabt == |g| && Shaped(g, f.layout.ntabp)
    requires Flat(file, pos + 1, next) == Serialize(g, f.layout.ntabp)
    requires ExactRun(file, pos + 1, next, f.layout.ntabt * f.layout.ntabp)
    ensures Step(f, file, pos)
         == Next(f.(props := f.props[id := Property(g, Description(id), Dispatch(file[pos].text).unit)]), next)
  {
    GridRoundTrip(f.layout.ntabp, f.layout.ntabt, file, pos + 1, next, g);
    SectionStored(f, file, pos, id, g, next);
  }

  /** The line stripped of whitespace opens the section of id. */
  predicate OpensSection(text: string, id: PropertyId)
  {
    Dispatch(text).Section? && Dispatch(text).id == id
  }

  /** A line opening nothing is passed over: reading resumes at the next line in the same state. */
  lemma SkipLine(f: Fluid, file: seq<Line>, pos: nat)
    requires pos < |file| && Complete(f.props) && Dispatch(file[pos].text).Skip?
    ensures Step(f, file, pos) == Next(f, pos + 1)
    ensures Parse(f, file, pos) == Parse(f, file, pos + 1)
  {
  }

  /**
   * A property no remaining line opens keeps its table, description and
   * unit. The requires is stronger than needed: it also rules out lines that
   * open id textually but are read as numbers of another section.
   */
  lemma {:induction false} UntouchedPropertyKept(f: Fluid, file: seq<Line>, pos: nat, id: PropertyId)
    requires pos <= |file| && Complete(f.props)
    requires forall k :: pos <= k < |file| ==> !OpensSection(file[k].text, id)
    ensures Parse(f, file, pos).0.props[id] == f.props[id]
    decreases |file| - pos
  {
    if pos < |file| {
      var r := Step(f, file, pos);
      assert r.fluid.props[id] == f.props[id];
      if r.Next? {
        UntouchedPropertyKept(r.fluid, file, r.pos, id);
      }
    }
  }

  /**
   * The last section of a property decides it: after a section of id read in
   * full, and no later line opening id, the property ends with that
   * section's table, unit and description. As for UntouchedPropertyKept, the
   * requires also rules out later lines that are read as numbers of another
   * section but would open id textually.
   */
  lemma LastSectionWins(f: Fluid, file: seq<Line>, pos: nat, id: PropertyId)
    requires pos < |file| && Complete(f.props)
    requires OpensSection(file[pos].text, id) && Step(f, file, pos).Next?
    requires forall k :: Step(f, file, pos).pos <= k < |file| ==> !OpensSection(file[k].text, id)
    ensures var r := Step(f, file, pos); var p := Parse(f, file, pos).0.props[id];
      && p == r.fluid.props[id]
      && p.unit == Dispatch(file[pos].text).unit && p.description == Description(id)
      && GridSpec(f.layout.ntabp, f.layout.ntabt, file, pos + 1) == Ok((p.data, r.pos))
  {
    var r := Step(f, file, pos);
    UntouchedPropertyKept(r.fluid, file, r.pos, id);
  }

  /** Without a further fluid header line, every field but the property tables keeps its value. */
  lemma {:induction false} HeaderFieldsKept(f: Fluid, file: seq<Line>, pos: nat)
    requires pos <= |file| && Complete(f.props)
    requires forall k :: pos <= k < |file| ==> !Dispatch(file[k].text).FluidLine?
    ensures Parse(f, file, pos).0 == f.(props := Parse(f, file, pos).0.props)
    decreases |file| - pos
  {
    if pos < |file| {
      var r := Step(f, file, pos);
      assert r.fluid == f.(props := r.fluid.props);
      if r.Next? {
        HeaderFieldsKept(r.fluid, file, r.pos);
      }
    }
  }

  /** An option once switched on stays on for the rest of the read. */
  lemma {:induction false} FlagsNeverReset(f: Fluid, file: seq<Line>, pos: nat, flag: Flag)
    requires pos <= |file| && Complete(f.props) && FlagOn(f, flag)
    ensures FlagOn(Parse(f, file, pos).0, flag)
    decreases |file| - pos
  {
    if pos < |file| {
      var r := Step(f, file, pos);
      assert FlagOn(r.fluid, flag);
      if r.Next? {
        FlagsNeverReset(r.fluid, file, r.pos, flag);
      }
    }
  }

  /** A read that ends in an error was ended by a line that opens something. */
  lemma {:induction false} ErrorsComeFromOpenedLines(f: Fluid, file: seq<Line>, pos: nat)
    requires pos <= |file| && Complete(f.props) && Parse(f, file, pos).1.Some?
    ensures exists k :: pos <= k < |file| && !Dispatch(file[k].text).Skip?
    decreases |file| - pos
  {
    var r := Step(f, file, pos);
    if r.Stop? {
      assert !Dispatch(file[pos].text).Skip?;
    } else {
      ErrorsComeFromOpenedLines(r.fluid, file, r.pos);
    }
  }

  /** A file none of whose lines opens anything leaves the object as constructed, without error. */
  lemma NothingRecognised(file: seq<Line>)
    requires forall k :: 0 <= k < |file| ==> Dispatch(file[k].text).Skip?
    ensures ReadPvt(file) == (Initial(), None)
  {
    var f := Initial();
    var r := Parse(f, file, 0);
    if r.1.Some? {
      ErrorsComeFromOpenedLines(f, file, 0);
    }
    HeaderFieldsKept(f, file, 0);
    forall id ensures r.0.props[id] == f.props[id] {
      UntouchedPropertyKept(f, file, 0, id);
    }
    assert r.0.props == f.props;
  }
}
