/** util/rum2bed.py: `parse_input` flattens the span lists of RUM lines into
    one (chromosome, start, end) triple per span, and three writers print
    the triples as BED rows, as a tab-separated table and as `chr:start-end`
    locations, each turning RUM's 1-based starts into the 0-based starts of
    half-open intervals.

    The writers are proved against the row functions; decoders for the
    three outputs are their partners. */
module RumToBed {
  import opened Wrappers
  import opened Text

  /** One span of one alignment, with the coordinates as read. */
  datatype Interval = Interval(chromosome: string, start: int, end: int)

  /** The exceptions `parse_input` raises. */
  datatype BedError =
    | WrongFieldCount(fields: nat)   // fewer than four tab-separated fields
    | BadInteger(text: string)       // a piece of a span that `int` rejects
    | WrongPieceCount(pieces: nat)   // a span that is not two numbers

  // ---------------------------------------------------------------------
  // parse_input

  /** `[int(x) for x in pieces]`: the values, or the first piece `int`
      rejects. */
  function ParseAll(pieces: seq<string>): (r: Result<seq<int>, string>)
    ensures r.Success? ==> |r.value| == |pieces|
    ensures r.Success? ==> forall k :: 0 <= k < |pieces| ==> ParseInt(pieces[k]) == Some(r.value[k])
    ensures r.Failure? ==>
      exists k :: 0 <= k < |pieces| && pieces[k] == r.error && ParseInt(pieces[k]).None? &&
        forall j :: 0 <= j < k ==> ParseInt(pieces[j]).Some?
  {
    if |pieces| == 0 then Success([])
    else
      var init := pieces[..|pieces| - 1];
      assert forall k :: 0 <= k < |init| ==> init[k] == pieces[k];
      match ParseAll(init)
      case Failure(e) => Failure(e)
      case Success(vs) =>
        match ParseInt(pieces[|pieces| - 1])
        case None => Failure(pieces[|pieces| - 1])
        case Some(v) => Success(vs + [v])
  }

  /** `(start, end) = [int(x) for x in span.split("-")]`: every piece is
      converted before the count is checked. */
  function SpanInterval(span: string): (r: Result<(int, int), BedError>)
    ensures r.Success? <==>
      var pieces := Split(span, "-", NoLimit);
      |pieces| == 2 && ParseInt(pieces[0]).Some? && ParseInt(pieces[1]).Some?
    ensures r.Success? ==>
      var pieces := Split(span, "-", NoLimit);
      ParseInt(pieces[0]) == Some(r.value.0) && ParseInt(pieces[1]) == Some(r.value.1)
  {
    var pieces := Split(span, "-", NoLimit);
    match ParseAll(pieces)
    case Failure(p) => Failure(BadInteger(p))
    case Success(vs) =>
      if |vs| != 2 then Failure(WrongPieceCount(|vs|)) else Success((vs[0], vs[1]))
  }

  /** The triples of the spans of one line, in span order. */
  function SpansIntervals(chromosome: string, spans: seq<string>): (r: Result<seq<Interval>, BedError>)
    ensures r.Success? ==> |r.value| == |spans|
    ensures r.Success? ==> forall k :: 0 <= k < |spans| ==>
      r.value[k].chromosome == chromosome && SpanInterval(spans[k]) == Success((r.value[k].start, r.value[k].end))
    ensures r.Failure? ==> exists k :: 0 <= k < |spans| && SpanInterval(spans[k]) == Failure(r.error)
  {
    if |spans| == 0 then Success([])
    else
      var init := spans[..|spans| - 1];
      assert forall k :: 0 <= k < |init| ==> init[k] == spans[k];
      match SpansIntervals(chromosome, init)
      case Failure(e) => Failure(e)
      case Success(ivs) =>
        match SpanInterval(spans[|spans| - 1])
        case Failure(e) => Failure(e)
        case Success(p) => Success(ivs + [Interval(chromosome, p.0, p.1)])
  }

  /** The fields of a line the unpacking into four names needs exactly. */
  function LineFields(line: string): seq<string>
  {
    Split(line, "\t", 3)
  }

  /** The triples of one line: field 2 is the chromosome, field 3 the span
      list, separated by ", ". */
  function LineIntervals(line: string): (r: Result<seq<Interval>, BedError>)
    ensures |LineFields(line)| != 4 ==> r == Failure(WrongFieldCount(|LineFields(line)|))
    ensures r.Success? ==> |LineFields(line)| == 4 && |r.value| == |Split(LineFields(line)[2], ", ", NoLimit)|
    ensures r.Success? ==> forall k :: 0 <= k < |r.value| ==> r.value[k].chromosome == LineFields(line)[1]
  {
    var fields := LineFields(line);
    if |fields| != 4 then Failure(WrongFieldCount(|fields|))
    else SpansIntervals(fields[1], Split(fields[2], ", ", NoLimit))
  }

  /** `list(parse_input(...))`: the triples of all lines in order, or the
      first exception. */
  function Intervals(lines: seq<string>): Result<seq<Interval>, BedError>
  {
    if |lines| == 0 then Success([])
    else match Intervals(lines[..|lines| - 1])
      case Failure(e) => Failure(e)
      case Success(ivs) =>
        match LineIntervals(lines[|lines| - 1])
        case Failure(e) => Failure(e)
        case Success(more) => Success(ivs + more)
  }

  lemma {:induction false} SpansFailureStays(chromosome: string, spans: seq<string>, j: nat)
    requires j <= |spans| && SpansIntervals(chromosome, spans[..j]).Failure?
    ensures SpansIntervals(chromosome, spans) == SpansIntervals(chromosome, spans[..j])
    decreases |spans| - j
  {
    if j < |spans| {
      assert spans[..j + 1][..j] == spans[..j];
      SpansFailureStays(chromosome, spans, j + 1);
    } else {
      assert spans[..j] == spans;
    }
  }

  lemma {:induction false} IntervalsFailureStays(lines: seq<string>, i: nat)
    requires i <= |lines| && Intervals(lines[..i]).Failure?
    ensures Intervals(lines) == Intervals(lines[..i])
    decreases |lines| - i
  {
    if i < |lines| {
      assert lines[..i + 1][..i] == lines[..i];
      IntervalsFailureStays(lines, i + 1);
    } else {
      assert lines[..i] == lines;
    }
  }

  /** The inner loop of `parse_input`: one triple per span of a line. */
  method SpanTriples(chromosome: string, spans: seq<string>) returns (r: Result<seq<Interval>, BedError>)
    ensures r == SpansIntervals(chromosome, spans)
  {
    var out: seq<Interval> := [];
    var j := 0;
    while j < |spans|
      invariant 0 <= j <= |spans|
      invariant SpansIntervals(chromosome, spans[..j]) == Success(out)
    {
      assert spans[..j + 1][..j] == spans[..j];
      match SpanInterval(spans[j])
      case Failure(e) =>
        SpansFailureStays(chromosome, spans, j + 1);
        return Failure(e);
      case Success(p) =>
        out := out + [Interval(chromosome, p.0, p.1)];
      j := j + 1;
    }
    assert spans[..j] == spans;
    r := Success(out);
  }

  /** The body of the outer loop of `parse_input`: unpack the four fields,
      then run the inner loop over the spans. */
  method LineTriples(line: string) returns (r: Result<seq<Interval>, BedError>)
    ensures r == LineIntervals(line)
  {
    var fields := Split(line, "\t", 3);
    if |fields| != 4 {
      return Failure(WrongFieldCount(|fields|));
    }
    r := SpanTriples(fields[1], Split(fields[2], ", ", NoLimit));
  }

  /** `parse_input` as a loop over lines and, within a line, over spans. */
  method ParseInput(lines: seq<string>) returns (r: Result<seq<Interval>, BedError>)
    ensures r == Intervals(lines)
  {
    var out: seq<Interval> := [];
    var i := 0;
    while i < |lines|
      invariant 0 <= i <= |lines|
      invariant Intervals(lines[..i]) == Success(out)
    {
      assert lines[..i + 1][..i] == lines[..i];
      var more := LineTriples(lines[i]);
      if more.Failure? {
        IntervalsFailureStays(lines, i + 1);
        return Failure(more.error);
      }
      out := out + more.value;
      i := i + 1;
    }
    assert lines[..i] == lines;
    r := Success(out);
  }

  // ---------------------------------------------------------------------
  // The writers

  const BedTrackLine: string :=
    "track\tname=rum\t" + "visibility=3\t" + "description=\"RUM Stuff\"\t" + "itemRGB=\"On\""
  const SeparateTabHeader: string := "chr\tstart\tend"
  const CombinedTabHeader: string := "loc"

  /** The header lines are single lines. */
  lemma HeadersOneLine()
    ensures '\n' !in BedTrackLine && '\n' !in SeparateTabHeader && '\n' !in CombinedTabHeader
  {
  }

  /** `"{0}\t{1}\t{2}"` with the start moved to 0-based. */
  function TabLine(iv: Interval): string
  {
    iv.chromosome + "\t" + IntToString(iv.start - 1) + "\t" + IntToString(iv.end)
  }

  /** `"{0}:{1}-{2}"` with the start moved to 0-based. */
  function LocLine(iv: Interval): string
  {
    iv.chromosome + ":" + IntToString(iv.start - 1) + "-" + IntToString(iv.end)
  }

  /** A row as the writers print it. */
  function TabRow(iv: Interval): string
  {
    TabLine(iv) + "\n"
  }

  function LocRow(iv: Interval): string
  {
    LocLine(iv) + "\n"
  }

  function TabLines(data: seq<Interval>): (ls: seq<string>)
    ensures |ls| == |data| && forall k :: 0 <= k < |data| ==> ls[k] == TabLine(data[k])
  {
    if |data| == 0 then [] else TabLines(data[..|data| - 1]) + [TabLine(data[|data| - 1])]
  }

  function LocLines(data: seq<Interval>): (ls: seq<string>)
    ensures |ls| == |data| && forall k :: 0 <= k < |data| ==> ls[k] == LocLine(data[k])
  {
    if |data| == 0 then [] else LocLines(data[..|data| - 1]) + [LocLine(data[|data| - 1])]
  }

  /** Each line followed by a newline, as the writers emit them. */
  function Terminated(ls: seq<string>): string
  {
    if |ls| == 0 then "" else Terminated(ls[..|ls| - 1]) + (ls[|ls| - 1] + "\n")
  }

  lemma TabRowsStep(data: seq<Interval>, i: nat)
    requires i < |data|
    ensures Terminated(TabLines(data[..i + 1])) == Terminated(TabLines(data[..i])) + TabRow(data[i])
  {
    assert data[..i + 1][..i] == data[..i];
    var ls := TabLines(data[..i + 1]);
    assert ls[..|ls| - 1] == TabLines(data[..i]);
  }

  lemma LocRowsStep(data: seq<Interval>, i: nat)
    requires i < |data|
    ensures Terminated(LocLines(data[..i + 1])) == Terminated(LocLines(data[..i])) + LocRow(data[i])
  {
    assert data[..i + 1][..i] == data[..i];
    var ls := LocLines(data[..i + 1]);
    assert ls[..|ls| - 1] == LocLines(data[..i]);
  }

  /** `rum_to_bed` as written: the track line with no newline after it,
      then one BED row per triple. */
  method RumToBed(data: seq<Interval>) returns (out: string)
    ensures out == BedTrackLine + Terminated(TabLines(data))
  {
    out := BedTrackLine;
    ghost var header := out;
    var i := 0;
    while i < |data|
      invariant 0 <= i <= |data|
      invariant out == header + Terminated(TabLines(data[..i]))
    {
      TabRowsStep(data, i);
      ConcatAssoc(header, Terminated(TabLines(data[..i])), TabRow(data[i]));
      out := out + TabRow(data[i]);
      i := i + 1;
    }
    assert data[..i] == data;
  }

  /** `rum_to_bed` with the track line ended by a newline, so that it is a
      line of its own. */
  method RumToBedCorrected(data: seq<Interval>) returns (out: string)
    ensures out == Terminated([BedTrackLine] + TabLines(data))
  {
    out := BedTrackLine + "\n";
    ghost var header := out;
    var i := 0;
    while i < |data|
      invariant 0 <= i <= |data|
      invariant out == header + Terminated(TabLines(data[..i]))
    {
      TabRowsStep(data, i);
      ConcatAssoc(header, Terminated(TabLines(data[..i])), TabRow(data[i]));
      out := out + TabRow(data[i]);
      i := i + 1;
    }
    assert data[..i] == data;
    TerminatedCons(BedTrackLine, TabLines(data));
  }

  /** `rum_to_separate_tab`: the header line, then one row per triple. */
  method RumToSeparateTab(data: seq<Interval>) returns (out: string)
    ensures out == Terminated([SeparateTabHeader] + TabLines(data))
  {
    out := "chr\tstart\tend\n";
    assert out == SeparateTabHeader + "\n";
    ghost var header := out;
    var i := 0;
    while i < |data|
      invariant 0 <= i <= |data|
      invariant out == header + Terminated(TabLines(data[..i]))
    {
      TabRowsStep(data, i);
      ConcatAssoc(header, Terminated(TabLines(data[..i])), TabRow(data[i]));
      out := out + TabRow(data[i]);
      i := i + 1;
    }
    assert data[..i] == data;
    TerminatedCons(SeparateTabHeader, TabLines(data));
  }

  /** `rum_to_combined_tab`: the header line, then one location per triple. */
  method RumToCombinedTab(data: seq<Interval>) returns (out: string)
    ensures out == Terminated([CombinedTabHeader] + LocLines(data))
  {
    out := "loc\n";
    assert out == CombinedTabHeader + "\n";
    ghost var header := out;
    var i := 0;
    while i < |data|
      invariant 0 <= i <= |data|
      invariant out == header + Terminated(LocLines(data[..i]))
    {
      LocRowsStep(data, i);
      ConcatAssoc(header, Terminated(LocLines(data[..i])), LocRow(data[i]));
      out := out + LocRow(data[i]);
      i := i + 1;
    }
    assert data[..i] == data;
    TerminatedCons(CombinedTabHeader, LocLines(data));
  }

  lemma {:induction false} TerminatedCons(first: string, ls: seq<string>)
    ensures Terminated([first] + ls) == first + "\n" + Terminated(ls)
  {
    if |ls| > 0 {
      var init := ls[..|ls| - 1];
      assert ([first] + ls)[..|ls|] == [first] + init;
      TerminatedCons(first, init);
    } else {
      assert [first] + ls == [first];
    }
  }

  /** Terminated lines are the lines joined by newlines, with an empty last
      piece after the final newline. */
  lemma {:induction false} TerminatedIsJoin(ls: seq<string>)
    ensures Terminated(ls) == Join(ls + [""], "\n")
  {
    if |ls| > 0 {
      var init := ls[..|ls| - 1];
      TerminatedIsJoin(init);
      assert ls + [""] == (init + [ls[|ls| - 1]]) + [""];
      if |init| == 0 {
        assert ls + [""] == [ls[0], ""];
        assert (ls + [""])[1..] == [""];
      } else {
        JoinAppend(init, "", "\n");
        JoinAppend(init, ls[|ls| - 1], "\n");
        JoinAppend(init + [ls[|ls| - 1]], "", "\n");
      }
    }
  }

  /** Splitting terminated lines at newlines gives the lines back, followed
      by the empty piece after the final newline. */
  lemma SplitTerminated(ls: seq<string>)
    requires forall k :: 0 <= k < |ls| ==> '\n' !in ls[k]
    ensures Split(Terminated(ls), "\n", NoLimit) == ls + [""]
  {
    TerminatedIsJoin(ls);
    var parts := ls + [""];
    assert forall k :: 0 <= k < |parts| - 1 ==> parts[k] == ls[k];
    SplitJoin(parts, "\n", NoLimit);
  }

  // ---------------------------------------------------------------------
  // Reading the outputs back

  /** A tab row read back: three fields, the start moved back to 1-based. */
  function DecodeTabLine(line: string): Option<Interval>
  {
    var fields := Split(line, "\t", NoLimit);
    if |fields| == 3 && ParseInt(fields[1]).Some? && ParseInt(fields[2]).Some? then
      Some(Interval(fields[0], ParseInt(fields[1]).value + 1, ParseInt(fields[2]).value))
    else None
  }

  /** A location read back: the chromosome up to the first ':', then two
      numbers separated by '-'. */
  function DecodeLocLine(line: string): Option<Interval>
  {
    var parts := Split(line, ":", 1);
    if |parts| != 2 then None
    else
      var pieces := Split(parts[1], "-", NoLimit);
      if |pieces| == 2 && ParseInt(pieces[0]).Some? && ParseInt(pieces[1]).Some? then
        Some(Interval(parts[0], ParseInt(pieces[0]).value + 1, ParseInt(pieces[1]).value))
      else None
  }

  /** The lines read back one by one; `None` as soon as one line fails. */
  function DecodeAll<T>(decode: string -> Option<T>, ls: seq<string>): Option<seq<T>>
  {
    if |ls| == 0 then Some([])
    else match (DecodeAll(decode, ls[..|ls| - 1]), decode(ls[|ls| - 1]))
      case (Some(xs), Some(x)) => Some(xs + [x])
      case _ => None
  }

  function DecodeTabLines(ls: seq<string>): Option<seq<Interval>>
  {
    DecodeAll(DecodeTabLine, ls)
  }

  function DecodeLocLines(ls: seq<string>): Option<seq<Interval>>
  {
    DecodeAll(DecodeLocLine, ls)
  }

  /** A file of newline-terminated lines whose first line is `header`, read
      back into its remaining lines. */
  function Body(text: string, header: string): Option<seq<string>>
  {
    var ls := Split(text, "\n", NoLimit);
    if |ls| >= 2 && ls[0] == header && ls[|ls| - 1] == "" then Some(ls[1..|ls| - 1]) else None
  }

  function DecodeBed(text: string): Option<seq<Interval>>
  {
    match Body(text, BedTrackLine)
    case None => None
    case Some(ls) => DecodeTabLines(ls)
  }

  function DecodeSeparateTab(text: string): Option<seq<Interval>>
  {
    match Body(text, SeparateTabHeader)
    case None => None
    case Some(ls) => DecodeTabLines(ls)
  }

  function DecodeCombinedTab(text: string): Option<seq<Interval>>
  {
    match Body(text, CombinedTabHeader)
    case None => None
    case Some(ls) => DecodeLocLines(ls)
  }

  lemma JoinTwo(a: string, b: string, sep: string)
    ensures Join([a, b], sep) == a + sep + b
  {
    assert [a, b][1..] == [b];
  }

  lemma JoinThree(a: string, b: string, c: string, sep: string)
    ensures Join([a, b, c], sep) == a + sep + b + sep + c
  {
    assert [a, b, c][1..] == [b, c];
    JoinTwo(b, c, sep);
    assert a + sep + (b + sep + c) == a + sep + b + sep + c;
  }

  /** The numbers the writers print hold neither separators nor newlines. */
  lemma NumeralChars(x: int)
    ensures '\t' !in IntToString(x) && '\n' !in IntToString(x) && ':' !in IntToString(x)
    ensures x >= 0 ==> '-' !in IntToString(x)
  {
    IntToStringChars(x);
  }

  /** Chromosome names the tab outputs can carry unambiguously. */
  predicate TabSafe(iv: Interval)
  {
    '\t' !in iv.chromosome && '\n' !in iv.chromosome
  }

  /** Triples the location output can carry unambiguously: no ':' in the
      name and no minus sign in either printed number. */
  predicate LocSafe(iv: Interval)
  {
    ':' !in iv.chromosome && '\n' !in iv.chromosome && iv.start >= 1 && iv.end >= 0
  }

  lemma TabLineRoundTrip(iv: Interval)
    requires TabSafe(iv)
    ensures DecodeTabLine(TabLine(iv)) == Some(iv)
    ensures '\n' !in TabLine(iv)
  {
    var a, b := IntToString(iv.start - 1), IntToString(iv.end);
    NumeralChars(iv.start - 1);
    NumeralChars(iv.end);
    var parts := [iv.chromosome, a, b];
    JoinThree(iv.chromosome, a, b, "\t");
    SplitJoin(parts, "\t", NoLimit);
    ParseIntToString(iv.start - 1);
    ParseIntToString(iv.end);
    DecodeTabFields(TabLine(iv), iv.chromosome, a, b, iv.start - 1, iv.end);
  }

  /** A line that splits into a name and two numerals decodes to them. */
  lemma DecodeTabFields(line: string, c: string, a: string, b: string, x: int, y: int)
    requires Split(line, "\t", NoLimit) == [c, a, b]
    requires ParseInt(a) == Some(x) && ParseInt(b) == Some(y)
    ensures DecodeTabLine(line) == Some(Interval(c, x + 1, y))
  {
  }

  lemma LocLineRoundTrip(iv: Interval)
    requires LocSafe(iv)
    ensures DecodeLocLine(LocLine(iv)) == Some(iv)
    ensures '\n' !in LocLine(iv)
  {
    var a, b := IntToString(iv.start - 1), IntToString(iv.end);
    NumeralChars(iv.start - 1);
    NumeralChars(iv.end);
    var rest := a + "-" + b;
    var pieces := [a, b];
    JoinTwo(a, b, "-");
    SplitJoin(pieces, "-", NoLimit);
    assert ':' !in rest;
    var parts := [iv.chromosome, rest];
    JoinTwo(iv.chromosome, rest, ":");
    assert iv.chromosome + ":" + rest == LocLine(iv);
    SplitJoin(parts, ":", 1);
    ParseIntToString(iv.start - 1);
    ParseIntToString(iv.end);
    DecodeLocFields(LocLine(iv), iv.chromosome, rest, a, b, iv.start - 1, iv.end);
  }

  /** A line that splits into a name and two numerals around '-' decodes to
      them. */
  lemma DecodeLocFields(line: string, c: string, rest: string, a: string, b: string, x: int, y: int)
    requires Split(line, ":", 1) == [c, rest] && Split(rest, "-", NoLimit) == [a, b]
    requires ParseInt(a) == Some(x) && ParseInt(b) == Some(y)
    ensures DecodeLocLine(line) == Some(Interval(c, x + 1, y))
  {
  }

  /** Lines each of which reads back as the value at its index read back
      as all the values. */
  lemma {:induction false} DecodeAllPointwise<T>(decode: string -> Option<T>, ls: seq<string>, xs: seq<T>)
    requires |ls| == |xs|
    requires forall k :: 0 <= k < |ls| ==> decode(ls[k]) == Some(xs[k])
    ensures DecodeAll(decode, ls) == Some(xs)
  {
    if |ls| > 0 {
      var n := |ls| - 1;
      DecodeAllPointwise(decode, ls[..n], xs[..n]);
      assert decode(ls[n]) == Some(xs[n]);
      assert xs == xs[..n] + [xs[n]];
    }
  }

  lemma DecodeTabLinesRoundTrip(data: seq<Interval>)
    requires forall k :: 0 <= k < |data| ==> TabSafe(data[k])
    ensures DecodeTabLines(TabLines(data)) == Some(data)
  {
    var ls := TabLines(data);
    forall k | 0 <= k < |ls| ensures DecodeTabLine(ls[k]) == Some(data[k]) {
      TabLineRoundTrip(data[k]);
    }
    DecodeAllPointwise(DecodeTabLine, ls, data);
  }

  lemma TabLinesOneLine(data: seq<Interval>)
    requires forall k :: 0 <= k < |data| ==> TabSafe(data[k])
    ensures forall k :: 0 <= k < |data| ==> '\n' !in TabLines(data)[k]
  {
    forall k | 0 <= k < |data| ensures '\n' !in TabLines(data)[k] {
      TabLineRoundTrip(data[k]);
    }
  }

  lemma DecodeLocLinesRoundTrip(data: seq<Interval>)
    requires forall k :: 0 <= k < |data| ==> LocSafe(data[k])
    ensures DecodeLocLines(LocLines(data)) == Some(data)
  {
    var ls := LocLines(data);
    forall k | 0 <= k < |ls| ensures DecodeLocLine(ls[k]) == Some(data[k]) {
      LocLineRoundTrip(data[k]);
    }
    DecodeAllPointwise(DecodeLocLine, ls, data);
  }

  lemma LocLinesOneLine(data: seq<Interval>)
    requires forall k :: 0 <= k < |data| ==> LocSafe(data[k])
    ensures forall k :: 0 <= k < |data| ==> '\n' !in LocLines(data)[k]
  {
    forall k | 0 <= k < |data| ensures '\n' !in LocLines(data)[k] {
      LocLineRoundTrip(data[k]);
    }
  }

  /** A header line followed by lines without newlines reads back as those
      lines. */
  lemma BodyOfTerminated(header: string, ls: seq<string>)
    requires '\n' !in header
    requires forall k :: 0 <= k < |ls| ==> '\n' !in ls[k]
    ensures Body(Terminated([header] + ls), header) == Some(ls)
  {
    var all := [header] + ls;
    ConsLinesFree(header, ls);
    SplitTerminated(all);
    var pieces := Split(Terminated(all), "\n", NoLimit);
    assert pieces == all + [""];
    assert |pieces| >= 2 && pieces[0] == header && pieces[|pieces| - 1] == "";
    assert pieces[1..|pieces| - 1] == ls;
  }

  lemma ConsLinesFree(header: string, ls: seq<string>)
    requires '\n' !in header
    requires forall k :: 0 < k < |ls| ==> '\n' !in ls[k]
    requires |ls| > 0 ==> '\n' !in ls[0]
    ensures forall k :: 0 <= k < |[header] + ls| ==> '\n' !in ([header] + ls)[k]
  {
    forall k | 0 <= k < |[header] + ls| ensures '\n' !in ([header] + ls)[k] {
      if k > 0 {
        assert ([header] + ls)[k] == ls[k - 1];
      }
    }
  }

  /** The table `rum_to_separate_tab` writes reads back as the triples. */
  lemma SeparateTabRoundTrip(data: seq<Interval>)
    requires forall k :: 0 <= k < |data| ==> TabSafe(data[k])
    ensures DecodeSeparateTab(Terminated([SeparateTabHeader] + TabLines(data))) == Some(data)
  {
    HeadersOneLine();
    DecodeTabLinesRoundTrip(data);
    TabLinesOneLine(data);
    BodyOfTerminated(SeparateTabHeader, TabLines(data));
  }

  /** The locations `rum_to_combined_tab` writes read back as the triples. */
  lemma CombinedTabRoundTrip(data: seq<Interval>)
    requires forall k :: 0 <= k < |data| ==> LocSafe(data[k])
    ensures DecodeCombinedTab(Terminated([CombinedTabHeader] + LocLines(data))) == Some(data)
  {
    HeadersOneLine();
    DecodeLocLinesRoundTrip(data);
    LocLinesOneLine(data);
    BodyOfTerminated(CombinedTabHeader, LocLines(data));
  }

  /** With its track line ended, the BED output reads back as the triples. */
  lemma BedCorrectedRoundTrip(data: seq<Interval>)
    requires forall k :: 0 <= k < |data| ==> TabSafe(data[k])
    ensures DecodeBed(Terminated([BedTrackLine] + TabLines(data))) == Some(data)
  {
    HeadersOneLine();
    DecodeTabLinesRoundTrip(data);
    TabLinesOneLine(data);
    BodyOfTerminated(BedTrackLine, TabLines(data));
  }

  /** As written, the first BED row is printed on the track line itself:
      the output has one line fewer than the rows plus the track line. */
  lemma BedTrackLineRunsOn(data: seq<Interval>)
    requires |data| > 0
    requires forall k :: 0 <= k < |data| ==> TabSafe(data[k])
    ensures Split(BedTrackLine + Terminated(TabLines(data)), "\n", NoLimit)
      == [BedTrackLine + TabLine(data[0])] + TabLines(data)[1..] + [""]
  {
    TabLinesOneLine(data);
    HeadersOneLine();
    SplitGlued(BedTrackLine, TabLines(data));
  }

  /** So the output as written does not read back as a BED file: its first
      line is not a track line. */
  lemma BedAsWrittenUnreadable(data: seq<Interval>)
    requires |data| > 0
    requires forall k :: 0 <= k < |data| ==> TabSafe(data[k])
    ensures DecodeBed(BedTrackLine + Terminated(TabLines(data))) == None
  {
    TabLinesOneLine(data);
    HeadersOneLine();
    GluedHasNoBody(BedTrackLine, TabLines(data));
  }

  /** Splitting text glued before terminated lines. */
  lemma SplitGlued(prefix: string, ls: seq<string>)
    requires |ls| > 0 && '\n' !in prefix
    requires forall k :: 0 <= k < |ls| ==> '\n' !in ls[k]
    ensures Split(prefix + Terminated(ls), "\n", NoLimit) == [prefix + ls[0]] + ls[1..] + [""]
  {
    var first := prefix + ls[0];
    GluedTerminated(prefix, ls);
    ConsLinesFree(first, ls[1..]);
    SplitTerminated([first] + ls[1..]);
  }

  /** A header glued to a nonempty first line is not a header line. */
  lemma GluedHasNoBody(header: string, ls: seq<string>)
    requires |ls| > 0 && |ls[0]| > 0 && '\n' !in header
    requires forall k :: 0 <= k < |ls| ==> '\n' !in ls[k]
    ensures Body(header + Terminated(ls), header) == None
  {
    SplitGlued(header, ls);
    assert |header + ls[0]| > |header|;
  }

  /** Text put before terminated lines ends up on the first line. */
  lemma GluedTerminated(prefix: string, ls: seq<string>)
    requires |ls| > 0
    ensures prefix + Terminated(ls) == Terminated([prefix + ls[0]] + ls[1..])
  {
    var first, more := ls[0], ls[1..];
    assert [first] + more == ls;
    TerminatedCons(first, more);
    TerminatedCons(prefix + first, more);
    calc {
      prefix + Terminated(ls);
      prefix + (first + "\n" + Terminated(more));
      { ConcatAssoc(prefix, first + "\n", Terminated(more)); }
      (prefix + (first + "\n")) + Terminated(more);
      { ConcatAssoc(prefix, first, "\n"); }
      prefix + first + "\n" + Terminated(more);
    }
  }

  /** The `start-end` texts of the spans. */
  function SpanTexts(spans: seq<(nat, nat)>): (ts: seq<string>)
    ensures |ts| == |spans|
    ensures forall k :: 0 <= k < |spans| ==> ts[k] == IntToString(spans[k].0) + "-" + IntToString(spans[k].1)
  {
    if |spans| == 0 then []
    else SpanTexts(spans[..|spans| - 1]) + [IntToString(spans[|spans| - 1].0) + "-" + IntToString(spans[|spans| - 1].1)]
  }

  function IntervalsOf(chromosome: string, spans: seq<(nat, nat)>): (ivs: seq<Interval>)
    ensures |ivs| == |spans|
    ensures forall k :: 0 <= k < |spans| ==> ivs[k] == Interval(chromosome, spans[k].0, spans[k].1)
  {
    if |spans| == 0 then []
    else IntervalsOf(chromosome, spans[..|spans| - 1]) + [Interval(chromosome, spans[|spans| - 1].0, spans[|spans| - 1].1)]
  }

  /** The text of a span holds neither the span separator nor a tab. */
  lemma SpanTextChars(s: nat, e: nat)
    ensures ',' !in IntToString(s) + "-" + IntToString(e)
    ensures '\t' !in IntToString(s) + "-" + IntToString(e)
  {
    NumeralChars(s);
    NumeralChars(e);
    IntToStringChars(s);
    IntToStringChars(e);
    var a, b := IntToString(s), IntToString(e);
    forall k | 0 <= k < |a + "-" + b| ensures (a + "-" + b)[k] != ',' {
      if k < |a| {
        assert (a + "-" + b)[k] == a[k];
      } else if k > |a| {
        assert (a + "-" + b)[k] == b[k - |a| - 1];
      }
    }
  }

  /** A span printed as `start-end` reads back as its two numbers. */
  lemma SpanIntervalOfText(s: nat, e: nat)
    ensures SpanInterval(IntToString(s) + "-" + IntToString(e)) == Success((s as int, e as int))
  {
    var a, b := IntToString(s), IntToString(e);
    NumeralChars(s);
    NumeralChars(e);
    JoinTwo(a, b, "-");
    SplitJoin([a, b], "-", NoLimit);
    ParseIntToString(s);
    ParseIntToString(e);
    assert Split(a + "-" + b, "-", NoLimit) == [a, b];
  }

  lemma {:induction false} SpansIntervalsOfTexts(chromosome: string, spans: seq<(nat, nat)>)
    ensures SpansIntervals(chromosome, SpanTexts(spans)) == Success(IntervalsOf(chromosome, spans))
  {
    if |spans| > 0 {
      var init := spans[..|spans| - 1];
      SpansIntervalsOfTexts(chromosome, init);
      var ts := SpanTexts(spans);
      assert ts[..|ts| - 1] == SpanTexts(init);
      SpanIntervalOfText(spans[|spans| - 1].0, spans[|spans| - 1].1);
    }
  }

  /** Every span of a well-formed line gives one triple, in span order, on
      the line's chromosome; the fields after the span list are ignored. */
  lemma LineIntervalsOfFormat(readId: string, chromosome: string, spans: seq<(nat, nat)>, rest: string)
    requires '\t' !in readId && '\t' !in chromosome && |spans| >= 1
    ensures LineIntervals(Join([readId, chromosome, Join(SpanTexts(spans), ", "), rest], "\t"))
      == Success(IntervalsOf(chromosome, spans))
  {
    var ts := SpanTexts(spans);
    forall k | 0 <= k < |ts| ensures ',' !in ts[k] && '\t' !in ts[k] {
      SpanTextChars(spans[k].0, spans[k].1);
    }
    SplitJoin(ts, ", ", NoLimit);
    JoinCharAbsent(ts, ", ", '\t');
    SplitFourFields(readId, chromosome, Join(ts, ", "), rest);
    SpansIntervalsOfTexts(chromosome, spans);
  }

  /** The first three fields of a line hold no tab, so the line's fields
      are the four joined. */
  lemma SplitFourFields(a: string, b: string, c: string, d: string)
    requires '\t' !in a && '\t' !in b && '\t' !in c
    ensures LineFields(Join([a, b, c, d], "\t")) == [a, b, c, d]
  {
    var fields := [a, b, c, d];
    forall k | 0 <= k < |fields| - 1 ensures "\t"[0] !in fields[k] {
      if k == 0 { assert fields[k] == a; }
      else if k == 1 { assert fields[k] == b; }
      else { assert fields[k] == c; }
    }
    SplitJoin(fields, "\t", 3);
  }

  /** A line whose span field is empty fails on `int("")`. */
  lemma EmptySpanListFails(readId: string, chromosome: string, rest: string)
    requires '\t' !in readId && '\t' !in chromosome
    ensures LineIntervals(Join([readId, chromosome, "", rest], "\t")) == Failure(BadInteger(""))
  {
    SplitFourFields(readId, chromosome, "", rest);
    assert Split("", ", ", NoLimit) == [""];
    assert Split("", "-", NoLimit) == [""];
    assert ParseInt("").None?;
    assert [""][..0] == [];
  }
}
