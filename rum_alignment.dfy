/** One line of a RUM alignment file, decoded into a record: read number,
    chromosome, strand, and the one part (forward, reverse or joined) that
    the read id's suffix names, holding the span bounds and the sequence.
    Models `readid_re`, `AlignmentPart` and the `line=` branch of
    `Alignment.__init__` in bin/rum_mapping_stats.py. */
module RumAlignment {
  import opened Wrappers
  import opened Text

  /** One physical fragment: span bounds kept as the strings of the line, in
      their order, and the nucleotide sequence. */
  datatype AlignmentPart = AlignmentPart(starts: seq<string>, ends: seq<string>, sequence: string)

  /** A logical alignment of one read at one place. */
  datatype Alignment = Alignment(
    readNum: nat,
    chromosome: string,
    strand: string,
    forward: Option<AlignmentPart>,
    reverse: Option<AlignmentPart>,
    joined: Option<AlignmentPart>)
  {
    /** Exactly one part is present: the shape of a record read from a line. */
    predicate IsSingleton()
    {
      || (forward.Some? && reverse.None? && joined.None?)
      || (forward.None? && reverse.Some? && joined.None?)
      || (forward.None? && reverse.None? && joined.Some?)
    }

    /** Forward and reverse both present, not joined: the shape the pairing
        step builds from two adjacent mates. */
    predicate IsPaired()
    {
      forward.Some? && reverse.Some? && joined.None?
    }
  }

  /** The read id suffix that selects the populated part of a singleton. */
  function Suffix(a: Alignment): string
  {
    if a.forward.Some? then "a" else if a.reverse.Some? then "b" else ""
  }

  /** The part a singleton carries. */
  function PartOf(a: Alignment): AlignmentPart
    requires a.IsSingleton()
  {
    if a.forward.Some? then a.forward.value
    else if a.reverse.Some? then a.reverse.value
    else a.joined.value
  }

  /** What `readid_re.match` captures: the read number and the optional
      direction suffix. */
  datatype ReadId = ReadId(readNum: nat, suffix: string)

  /** The exceptions the constructor raises. */
  datatype ParseError =
    | WrongFieldCount(fields: nat)
    | BadReadId(readId: string)
    | BadLocation(location: string)

  /** `readid_re.match(id)` with `readid_re = seq.(\d+)([ab]?)`, anchored at
      the start only: "seq", one character other than a newline, a maximal
      run of digits, then one `a` or `b` if present; the rest is ignored. */
  function MatchReadId(id: string): (r: Option<ReadId>)
    ensures r.Some? <==> |id| >= 5 && id[..3] == "seq" && id[3] != '\n' && IsDigit(id[4])
    ensures r.Some? ==> r.value.suffix == "" || r.value.suffix == "a" || r.value.suffix == "b"
  {
    if |id| >= 5 && id[..3] == "seq" && id[3] != '\n' && IsDigit(id[4]) then
      var end := 4 + DigitRun(id, 4);
      var suffix := if end < |id| && (id[end] == 'a' || id[end] == 'b') then [id[end]] else "";
      Some(ReadId(DigitsValue(id[4..end]), suffix))
    else None
  }

  /** `(fwd, rev) = loc.split('-')`: exactly two pieces. */
  function SplitLocation(loc: string): (r: Result<(string, string), ParseError>)
    ensures r.Success? ==> loc == r.value.0 + "-" + r.value.1
    ensures r.Success? ==> '-' !in r.value.0 && '-' !in r.value.1
    ensures r.Failure? ==> r.error == BadLocation(loc)
  {
    var pieces := Split(loc, "-", NoLimit);
    if |pieces| == 2 then
      SplitPiecesFree(loc, '-', NoLimit);
      Success((pieces[0], pieces[1]))
    else Failure(BadLocation(loc))
  }

  /** The start and end lists built from the locations, in order, or the
      error of the first location that does not split in two. */
  function SplitSpans(locs: seq<string>): (r: Result<(seq<string>, seq<string>), ParseError>)
    ensures r.Success? ==> |r.value.0| == |locs| && |r.value.1| == |locs|
    ensures r.Success? ==> forall k :: 0 <= k < |locs| ==> SplitLocation(locs[k]) == Success((r.value.0[k], r.value.1[k]))
    ensures r.Failure? ==>
      exists k :: 0 <= k < |locs| && SplitLocation(locs[k]) == Failure(r.error) &&
        forall j :: 0 <= j < k ==> SplitLocation(locs[j]).Success?
  {
    if |locs| == 0 then Success(([], []))
    else
      var init := locs[..|locs| - 1];
      assert forall k :: 0 <= k < |init| ==> init[k] == locs[k];
      match SplitSpans(init)
      case Failure(e) => Failure(e)
      case Success((starts, ends)) =>
        match SplitLocation(locs[|locs| - 1])
        case Failure(e) => Failure(e)
        case Success((s, e)) =>
          var out := (starts + [s], ends + [e]);
          assert forall k :: 0 <= k < |locs| ==> SplitLocation(locs[k]) == Success((out.0[k], out.1[k])) by {
            forall k | 0 <= k < |locs| ensures SplitLocation(locs[k]) == Success((out.0[k], out.1[k])) {
              if k < |init| {
                assert out.0[k] == starts[k] && out.1[k] == ends[k] && locs[k] == init[k];
              }
            }
          }
          Success(out)
  }

  /** The record one line decodes to: `Alignment(line=line)`. */
  function ParseAlignment(line: string): (r: Result<Alignment, ParseError>)
    ensures r.Success? ==> r.value.IsSingleton()
    ensures r.Success? ==> MatchReadId(Split(line, "\t", 4)[0]) == Some(ReadId(r.value.readNum, Suffix(r.value)))
    ensures r.Success? ==> |PartOf(r.value).starts| == |PartOf(r.value).ends| >= 1
  {
    var fields := Split(line, "\t", 4);
    if |fields| != 5 then Failure(WrongFieldCount(|fields|))
    else match MatchReadId(fields[0])
      case None => Failure(BadReadId(fields[0]))
      case Some(id) =>
        match SplitSpans(Split(fields[2], ", ", NoLimit))
        case Failure(e) => Failure(e)
        case Success((starts, ends)) =>
          var part := AlignmentPart(starts, ends, fields[4]);
          Success(Alignment(
            id.readNum, fields[1], fields[3],
            if id.suffix == "a" then Some(part) else None,
            if id.suffix == "b" then Some(part) else None,
            if id.suffix != "a" && id.suffix != "b" then Some(part) else None))
  }

  /** The first location that fails decides the error of the whole list. */
  lemma SplitSpansFirstFailure(locs: seq<string>, i: nat)
    requires i < |locs|
    requires SplitSpans(locs[..i]).Success? && SplitLocation(locs[i]).Failure?
    ensures SplitSpans(locs) == Failure(SplitLocation(locs[i]).error)
  {
    var prefix := SplitSpans(locs[..i]).value;
    forall j | 0 <= j < i ensures SplitLocation(locs[j]).Success? {
      assert locs[..i][j] == locs[j];
    }
    var r := SplitSpans(locs);
    if r.Failure? {
      var k :| 0 <= k < |locs| && SplitLocation(locs[k]) == Failure(r.error) &&
        forall j :: 0 <= j < k ==> SplitLocation(locs[j]).Success?;
      assert k == i;
    }
  }

  /** `Alignment(line=line)` as the constructor runs it, building the start
      and end lists in a loop. */
  method ParseLine(line: string) returns (r: Result<Alignment, ParseError>)
    ensures r == ParseAlignment(line)
  {
    var fields := Split(line, "\t", 4);
    if |fields| != 5 {
      return Failure(WrongFieldCount(|fields|));
    }
    var m := MatchReadId(fields[0]);
    if m.None? {
      return Failure(BadReadId(fields[0]));
    }
    var locs := Split(fields[2], ", ", NoLimit);
    var starts: seq<string>, ends: seq<string> := [], [];
    var i := 0;
    while i < |locs|
      invariant 0 <= i <= |locs|
      invariant SplitSpans(locs[..i]) == Success((starts, ends))
    {
      var loc := SplitLocation(locs[i]);
      if loc.Failure? {
        SplitSpansFirstFailure(locs, i);
        return Failure(loc.error);
      }
      assert locs[..i + 1][..i] == locs[..i];
      starts := starts + [loc.value.0];
      ends := ends + [loc.value.1];
      i := i + 1;
    }
    assert locs[..i] == locs;
    assert SplitSpans(locs) == Success((starts, ends));
    var ab := m.value.suffix;
    var part := AlignmentPart(starts, ends, fields[4]);
    var forward, reverse, joined := None, None, None;
    if ab == "a" {
      forward := Some(part);
    } else if ab == "b" {
      reverse := Some(part);
    } else {
      joined := Some(part);
    }
    r := Success(Alignment(m.value.readNum, fields[1], fields[3], forward, reverse, joined));
  }

  /** The first failing line of a file and its error. */
  datatype LineFailure = LineFailure(index: nat, error: ParseError)

  /** `parse` applied to each line in order, up to the first line it
      rejects, which is reported with its index. */
  function ParseEach<T>(parse: string -> Result<T, ParseError>, lines: seq<string>): (r: Result<seq<T>, LineFailure>)
    ensures r.Success? ==> |r.value| == |lines|
    ensures r.Success? ==> forall k :: 0 <= k < |lines| ==> parse(lines[k]) == Success(r.value[k])
    ensures r.Failure? ==> r.error.index < |lines|
    ensures r.Failure? ==> parse(lines[r.error.index]) == Failure(r.error.error)
    ensures r.Failure? ==> ParseEach(parse, lines[..r.error.index]).Success?
  {
    if |lines| == 0 then Success([])
    else
      var init := lines[..|lines| - 1];
      assert forall k :: 0 <= k < |init| ==> init[k] == lines[k];
      match ParseEach(parse, init)
      case Failure(f) =>
        assert lines[..f.index] == init[..f.index];
        Failure(f)
      case Success(vs) =>
        match parse(lines[|lines| - 1])
        case Failure(e) => Failure(LineFailure(|lines| - 1, e))
        case Success(v) => Success(vs + [v])
  }

  /** Reading one more line extends the values or fails at that line. */
  lemma ParseEachNext<T>(parse: string -> Result<T, ParseError>, lines: seq<string>, i: nat)
    requires i < |lines| && ParseEach(parse, lines[..i]).Success?
    ensures ParseEach(parse, lines[..i + 1]) ==
      match parse(lines[i])
      case Success(v) => Success(ParseEach(parse, lines[..i]).value + [v])
      case Failure(e) => Failure(LineFailure(i, e))
  {
    assert lines[..i + 1][..i] == lines[..i];
  }

  /** Once a prefix of the lines fails, so do all the lines, with the same
      line and error. */
  lemma {:induction false} ParseEachFailureStays<T>(parse: string -> Result<T, ParseError>, lines: seq<string>, j: nat)
    requires j <= |lines|
    requires ParseEach(parse, lines[..j]).Failure?
    ensures ParseEach(parse, lines) == ParseEach(parse, lines[..j])
    decreases |lines| - j
  {
    if j < |lines| {
      assert lines[..j + 1][..j] == lines[..j];
      ParseEachFailureStays(parse, lines, j + 1);
    } else {
      assert lines[..j] == lines;
    }
  }

  /** The records of a sequence of lines, or the first line that fails: the
      generator `(Alignment(line=line) for line in lines)` run to the end. */
  function ParseLines(lines: seq<string>): (r: Result<seq<Alignment>, LineFailure>)
    ensures r.Success? ==> |r.value| == |lines|
    ensures r.Success? ==> forall k :: 0 <= k < |lines| ==> ParseAlignment(lines[k]) == Success(r.value[k])
    ensures r.Failure? ==> r.error.index < |lines|
    ensures r.Failure? ==> ParseAlignment(lines[r.error.index]) == Failure(r.error.error)
    ensures r.Failure? ==> ParseLines(lines[..r.error.index]).Success?
  {
    ParseEach(ParseAlignment, lines)
  }

  /** The location list of a part, `start-end` pieces joined with ", ". */
  function LocationList(part: AlignmentPart): string
    requires |part.starts| == |part.ends|
  {
    Join(seq(|part.starts|, k requires 0 <= k < |part.starts| => part.starts[k] + "-" + part.ends[k]), ", ")
  }

  /** A line holding `readId` and the record `a`, fields joined by tabs. */
  function FormatLine(readId: string, a: Alignment): string
    requires a.IsSingleton() && |PartOf(a).starts| == |PartOf(a).ends|
  {
    Join([readId, a.chromosome, LocationList(PartOf(a)), a.strand, PartOf(a).sequence], "\t")
  }

  /** The canonical read id of a singleton: "seq.", the read number, suffix. */
  function CanonicalReadId(a: Alignment): string
  {
    "seq." + NatToString(a.readNum) + Suffix(a)
  }

  /** The read id `CanonicalReadId` writes is matched back to its number and
      suffix; after an `a` or `b` whatever follows is ignored, and with no
      suffix the next character must not extend the match. */
  lemma ReadIdCanonical(n: nat, suffix: string, tail: string)
    requires suffix == "a" || suffix == "b" ||
             (suffix == "" && (tail == [] || (!IsDigit(tail[0]) && tail[0] != 'a' && tail[0] != 'b')))
    ensures MatchReadId("seq." + NatToString(n) + suffix + tail) == Some(ReadId(n, suffix))
  {
    NatToStringDigits(n);
    MatchDigits(NatToString(n), suffix, tail);
  }

  /** `readid_re` on "seq." and a run of digits reads the run's value. */
  lemma MatchDigits(digits: string, suffix: string, tail: string)
    requires |digits| >= 1 && AllDigits(digits)
    requires suffix == "a" || suffix == "b" ||
             (suffix == "" && (tail == [] || (!IsDigit(tail[0]) && tail[0] != 'a' && tail[0] != 'b')))
    ensures MatchReadId("seq." + digits + suffix + tail) == Some(ReadId(DigitsValue(digits), suffix))
  {
    var rest := suffix + tail;
    var id := "seq." + digits + rest;
    ConcatAssoc("seq." + digits, suffix, tail);
    DigitsAfterPrefix(digits, rest);
    SuffixAfterDigits("seq." + digits, suffix, tail);
    MatchOf(id, |digits|, suffix);
  }

  /** `readid_re` on an id whose digit run and suffix are known. */
  lemma MatchOf(id: string, len: nat, suffix: string)
    requires |id| >= 5 && id[..3] == "seq" && id[3] != '\n' && IsDigit(id[4])
    requires DigitRun(id, 4) == len
    requires (if 4 + len < |id| && (id[4 + len] == 'a' || id[4 + len] == 'b') then [id[4 + len]] else "") == suffix
    ensures MatchReadId(id) == Some(ReadId(DigitsValue(id[4..4 + len]), suffix))
  {
  }

  /** What follows the digits is read as the suffix `suffix`. */
  lemma SuffixAfterDigits(head: string, suffix: string, tail: string)
    requires suffix == "a" || suffix == "b" ||
             (suffix == "" && (tail == [] || (!IsDigit(tail[0]) && tail[0] != 'a' && tail[0] != 'b')))
    ensures var id, end := head + (suffix + tail), |head|;
      (if end < |id| && (id[end] == 'a' || id[end] == 'b') then [id[end]] else "") == suffix
  {
    var id := head + (suffix + tail);
    if |suffix| > 0 {
      assert id[|head|] == suffix[0];
    } else if |tail| > 0 {
      assert id[|head|] == tail[0];
    }
  }

  /** After "seq." the run of digits is exactly `digits`, followed by `rest`. */
  lemma DigitsAfterPrefix(digits: string, rest: string)
    requires |digits| >= 1 && AllDigits(digits)
    requires rest == [] || !IsDigit(rest[0])
    ensures var id := "seq." + digits + rest;
      && |id| >= 5 && id[..3] == "seq" && id[3] == '.' && IsDigit(id[4])
      && DigitRun(id, 4) == |digits| && id[4..4 + |digits|] == digits
      && (4 + |digits| < |id| ==> id[4 + |digits|] == rest[0])
  {
    var head := "seq." + digits;
    var id := head + rest;
    var len := |digits|;
    assert id[..3] == "seq" && id[3] == '.';
    forall k | 4 <= k < 4 + len ensures IsDigit(id[k]) {
      assert id[k] == head[k] == digits[k - 4];
    }
    assert id[4..4 + len] == digits;
    if 4 + len < |id| {
      assert id[4 + len] == rest[0];
    }
    DigitRunExact(id, 4, len);
  }

  /** Nothing of a parsed line is lost: the line is its read id field
      followed by the record's fields, the spans rejoined as `start-end`
      pieces separated by ", ". */
  lemma ParsedLineReassembles(line: string)
    requires ParseAlignment(line).Success?
    ensures line == FormatLine(Split(line, "\t", 4)[0], ParseAlignment(line).value)
  {
    var fields := Split(line, "\t", 4);
    var a := ParseAlignment(line).value;
    assert |fields| == 5;
    var locs := Split(fields[2], ", ", NoLimit);
    var spans := SplitSpans(locs);
    assert spans.Success?;
    var part := AlignmentPart(spans.value.0, spans.value.1, fields[4]);
    assert PartOf(a) == part && a.chromosome == fields[1] && a.strand == fields[3];
    var pieces := seq(|part.starts|, k requires 0 <= k < |part.starts| => part.starts[k] + "-" + part.ends[k]);
    forall k | 0 <= k < |locs| ensures pieces[k] == locs[k] {
      assert SplitLocation(locs[k]) == Success((part.starts[k], part.ends[k]));
    }
    assert pieces == locs;
    assert LocationList(part) == fields[2];
    assert [fields[0], a.chromosome, LocationList(part), a.strand, part.sequence] == fields;
  }

  /** The record shapes `FormatLine` writes unambiguously: no tab in the text
      fields, no '-', ',' or tab in a span bound, at least one span. */
  predicate Writable(a: Alignment)
  {
    && a.IsSingleton()
    && '\t' !in a.chromosome && '\t' !in a.strand
    && |PartOf(a).starts| == |PartOf(a).ends| >= 1
    && (forall k :: 0 <= k < |PartOf(a).starts| ==> BoundWritable(PartOf(a).starts[k]))
    && (forall k :: 0 <= k < |PartOf(a).ends| ==> BoundWritable(PartOf(a).ends[k]))
  }

  predicate BoundWritable(b: string)
  {
    '-' !in b && ',' !in b && '\t' !in b
  }

  /** A location written as `start-end` splits back into its two bounds. */
  lemma SplitLocationOfJoin(start: string, end: string)
    requires '-' !in start && '-' !in end
    ensures SplitLocation(start + "-" + end) == Success((start, end))
  {
    assert Join([start, end], "-") == start + "-" + end;
    SplitJoin([start, end], "-", NoLimit);
  }

  /** Locations that each split in two give the lists of their bounds. */
  lemma SplitSpansAllSucceed(locs: seq<string>, starts: seq<string>, ends: seq<string>)
    requires |starts| == |locs| && |ends| == |locs|
    requires forall k :: 0 <= k < |locs| ==> SplitLocation(locs[k]) == Success((starts[k], ends[k]))
    ensures SplitSpans(locs) == Success((starts, ends))
  {
    var r := SplitSpans(locs);
    assert r.Success?;
    assert forall k :: 0 <= k < |locs| ==> r.value.0[k] == starts[k] && r.value.1[k] == ends[k];
    assert r.value.0 == starts;
    assert r.value.1 == ends;
  }

  /** Writing a record with its canonical read id and parsing the line back
      gives the record again. */
  lemma {:induction false} FormatParseRoundTrip(a: Alignment)
    requires Writable(a)
    ensures ParseAlignment(FormatLine(CanonicalReadId(a), a)) == Success(a)
  {
    var part := PartOf(a);
    var id := CanonicalReadId(a);
    var pieces := seq(|part.starts|, k requires 0 <= k < |part.starts| => part.starts[k] + "-" + part.ends[k]);
    var locList := LocationList(part);
    var fields := [id, a.chromosome, locList, a.strand, part.sequence];
    // No tab in the first four fields.
    assert id == "seq." + NatToString(a.readNum) + Suffix(a) + "";
    NatToStringDigits(a.readNum);
    assert '\t' !in id by {
      assert forall k :: 0 <= k < |id| ==> id[k] == '\t' ==> false by {
        forall k | 0 <= k < |id| ensures id[k] != '\t' {
          if 4 <= k < 4 + |NatToString(a.readNum)| {
            assert id[k] == NatToString(a.readNum)[k - 4];
          }
        }
      }
    }
    forall k | 0 <= k < |pieces| ensures '\t' !in pieces[k] && ',' !in pieces[k] {
      assert BoundWritable(part.starts[k]) && BoundWritable(part.ends[k]);
    }
    JoinCharAbsent(pieces, ", ", '\t');
    SplitJoin(fields, "\t", 4);
    ReadIdCanonical(a.readNum, Suffix(a), "");
    SplitJoin(pieces, ", ", NoLimit);
    forall k | 0 <= k < |pieces| ensures SplitLocation(pieces[k]) == Success((part.starts[k], part.ends[k])) {
      assert BoundWritable(part.starts[k]) && BoundWritable(part.ends[k]);
      SplitLocationOfJoin(part.starts[k], part.ends[k]);
    }
    SplitSpansAllSucceed(pieces, part.starts, part.ends);
  }
}
