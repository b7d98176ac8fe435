/**
 * A tab file as the reader sees it: a sequence of lines, each with its text
 * and the numbers the numeric-token extractor finds in it, and the rule by
 * which the reader collects a required count of numbers from consecutive
 * lines.
 */
module TabStream {
  import opened Results

  /** One line of the file: its text and, in order, the numbers it holds. */
  datatype Line = Line(text: string, numbers: seq<real>)

  /** The ways a read of the file can fail. */
  datatype Error =
    | TruncatedStream         // the file ended before the required count of numbers was read
    | Overshoot               // a line held more numbers than were still required
    | MalformedDimensionLine  // the line after the fluid header holds fewer than three numbers
    | NegativeDimension       // a table dimension is negative

  /** The numbers of lines a..b-1, in order. */
  function Flat(file: seq<Line>, a: nat, b: nat): seq<real>
    requires a <= b <= |file|
    decreases b - a
  {
    if a == b then [] else file[a].numbers + Flat(file, a + 1, b)
  }

  lemma {:induction false} FlatSnoc(file: seq<Line>, a: nat, b: nat)
    requires a <= b < |file|
    ensures Flat(file, a, b + 1) == Flat(file, a, b) + file[b].numbers
    decreases b - a
  {
    if a < b {
      FlatSnoc(file, a + 1, b);
    }
  }

  lemma {:induction false} FlatLengthMonotone(file: seq<Line>, a: nat, b: nat, c: nat)
    requires a <= b <= c <= |file|
    ensures |Flat(file, a, b)| <= |Flat(file, a, c)|
    decreases c - b
  {
    if b < c {
      FlatLengthMonotone(file, a, b, c - 1);
      FlatSnoc(file, a, c - 1);
    }
  }

  /**
   * Reads lines from pos on, appending their numbers, until need numbers
   * have been collected; gives the numbers and the position after the last
   * line read. A line holding more numbers than are still required is an
   * Overshoot; running out of lines is a TruncatedStream.
   */
  function Gather(file: seq<Line>, pos: nat, need: nat): (r: Result<(seq<real>, nat), Error>)
    requires pos <= |file|
    ensures r.Ok? ==> pos <= r.value.1 <= |file|
    ensures r.Ok? ==> |r.value.0| == need && r.value.0 == Flat(file, pos, r.value.1)
    ensures r.Err? ==> r.error == TruncatedStream || r.error == Overshoot
    decreases |file| - pos
  {
    if need == 0 then Ok(([], pos))
    else if pos == |file| then Err(TruncatedStream)
    else
      var ss := file[pos].numbers;
      if |ss| > need then Err(Overshoot)
      else match Gather(file, pos + 1, need - |ss|)
        case Ok((rest, next)) => Ok((ss + rest, next))
        case Err(e) => Err(e)
  }

  /** A read's outcome with the numbers collected before it put in front. */
  function Prefixed(done: seq<real>, r: Result<(seq<real>, nat), Error>): Result<(seq<real>, nat), Error>
  {
    match r
    case Ok((d, next)) => Ok((done + d, next))
    case Err(e) => Err(e)
  }

  lemma PrefixedNothing(r: Result<(seq<real>, nat), Error>)
    ensures Prefixed([], r) == r
  {
    if r.Ok? {
      assert [] + r.value.0 == r.value.0;
    }
  }

  /**
   * The read resumed after a line that did not complete the count: it is
   * the rest of the read with that line's numbers in front.
   */
  lemma GatherResume(file: seq<Line>, done: seq<real>, pos: nat, need: nat)
    requires pos < |file| && 0 < need && |file[pos].numbers| <= need
    ensures Prefixed(done, Gather(file, pos, need))
         == Prefixed(done + file[pos].numbers, Gather(file, pos + 1, need - |file[pos].numbers|))
  {
    var ss := file[pos].numbers;
    match Gather(file, pos + 1, need - |ss|)
    case Ok((d, next)) =>
      assert done + (ss + d) == done + ss + d;
    case Err(e) =>
  }

  /** The read stops at the first line that completes the count: every earlier prefix falls short. */
  lemma {:induction false} GatherStopsWhenComplete(file: seq<Line>, pos: nat, need: nat)
    requires pos <= |file| && Gather(file, pos, need).Ok?
    ensures forall k :: pos <= k < Gather(file, pos, need).value.1 ==> |Flat(file, pos, k)| < need
    decreases |file| - pos
  {
    if need > 0 {
      var ss := file[pos].numbers;
      GatherStopsWhenComplete(file, pos + 1, need - |ss|);
      var next := Gather(file, pos, need).value.1;
      forall k | pos <= k < next ensures |Flat(file, pos, k)| < need {
        if k > pos {
          FlatConcat(file, pos, pos + 1, k);
        }
      }
    }
  }

  lemma {:induction false} FlatConcat(file: seq<Line>, a: nat, b: nat, c: nat)
    requires a <= b <= c <= |file|
    ensures Flat(file, a, c) == Flat(file, a, b) + Flat(file, b, c)
    decreases b - a
  {
    if a < b {
      FlatConcat(file, a + 1, b, c);
    }
  }

  /** Lines a..b-1 supply exactly need numbers, and no shorter run of them from a does. */
  predicate ExactRun(file: seq<Line>, a: nat, b: nat, need: nat)
    requires a <= b <= |file|
  {
    |Flat(file, a, b)| == need && forall k :: a <= k < b ==> |Flat(file, a, k)| < need
  }

  /** The read fails for lack of input exactly when the rest of the file holds fewer numbers than required. */
  lemma {:induction false} GatherTruncatedIff(file: seq<Line>, pos: nat, need: nat)
    requires pos <= |file|
    ensures Gather(file, pos, need) == Err(TruncatedStream) <==> |Flat(file, pos, |file|)| < need
    decreases |file| - pos
  {
    if need > 0 && pos < |file| {
      var ss := file[pos].numbers;
      FlatConcat(file, pos, pos + 1, |file|);
      if |ss| <= need {
        GatherTruncatedIff(file, pos + 1, need - |ss|);
      }
    }
  }

  /**
   * Conversely, a line at which the collected count first reaches need exactly
   * is where the read stops, with the numbers of the lines before it.
   */
  lemma {:induction false} GatherExact(file: seq<Line>, pos: nat, need: nat, next: nat)
    requires pos <= next <= |file|
    requires |Flat(file, pos, next)| == need
    requires forall k :: pos <= k < next ==> |Flat(file, pos, k)| < need
    ensures Gather(file, pos, need) == Ok((Flat(file, pos, next), next))
    decreases |file| - pos
  {
    if need == 0 {
      // An empty prefix already has need numbers, so the read stops where it starts.
      assert Flat(file, pos, pos) == [];
    } else {
      var ss := file[pos].numbers;
      var rest: nat := need - |ss|;
      var after := pos + 1;
      assert pos < next;
      FlatConcat(file, pos, after, next);
      forall k | after <= k < next ensures |Flat(file, after, k)| < rest {
        FlatConcat(file, pos, after, k);
      }
      GatherExact(file, after, rest, next);
    }
  }

  /**
   * The accumulation loop exactly as the program writes it, run for at most
   * fuel passes: once the file is exhausted, readline gives an empty line,
   * which adds no numbers. The result is the count reached, or None while
   * the loop is still running.
   */
  function LoopAsWritten(file: seq<Line>, pos: nat, count: nat, need: nat, fuel: nat): Option<nat>
    decreases fuel
  {
    if count >= need then Some(count)
    else if fuel == 0 then None
    else
      var n := if pos < |file| then |file[pos].numbers| else 0;
      LoopAsWritten(file, pos + 1, count + n, need, fuel - 1)
  }

  /**
   * When the rest of the file holds fewer numbers than are still needed, the
   * loop as written never finishes, however many passes it is given.
   */
  lemma {:induction false} LoopAsWrittenHangs(file: seq<Line>, pos: nat, count: nat, need: nat, fuel: nat)
    requires pos <= |file| && count + |Flat(file, pos, |file|)| < need
    ensures LoopAsWritten(file, pos, count, need, fuel) == None
    decreases fuel
  {
    if fuel > 0 {
      if pos < |file| {
        FlatConcat(file, pos, pos + 1, |file|);
        LoopAsWrittenHangs(file, pos + 1, count + |file[pos].numbers|, need, fuel - 1);
      } else {
        LoopAsWrittenEof(file, pos + 1, count, need, fuel - 1);
      }
    }
  }

  lemma {:induction false} LoopAsWrittenEof(file: seq<Line>, pos: nat, count: nat, need: nat, fuel: nat)
    requires pos >= |file| && count < need
    ensures LoopAsWritten(file, pos, count, need, fuel) == None
    decreases fuel
  {
    if fuel > 0 {
      LoopAsWrittenEof(file, pos + 1, count, need, fuel - 1);
    }
  }

  /** A property header as the last line of a file, one cell required: the loop as written never ends. */
  lemma TruncatedSectionHangs(fuel: nat)
    ensures LoopAsWritten([Line("GAS DENSITY (KG/M3)", [3.0])], 1, 0, 1, fuel) == None
  {
    LoopAsWrittenEof([Line("GAS DENSITY (KG/M3)", [3.0])], 1, 0, 1, fuel);
  }

  /** ...while the corrected read reports the truncation. */
  lemma TruncatedSectionReported()
    ensures Gather([Line("GAS DENSITY (KG/M3)", [3.0])], 1, 1) == Err(TruncatedStream)
  {
  }
}
