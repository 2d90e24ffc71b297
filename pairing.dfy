/** The pairing transducer `aln_iter` of bin/rum_mapping_stats.py: a single
    pass over the parsed records with one pending slot, which fuses a
    forward record with the reverse record right after it when both belong
    to the same read, chromosome and strand, and passes every other record
    through in order.

    `Pairs` is the reference definition (a greedy left-to-right reading of
    the record sequence); `Feed` is the slot machine the loop runs; `AlnIter`
    is the loop itself, over lines that are parsed as they are read. */
module Pairing {
  import opened Wrappers
  import opened RumAlignment

  /** The merge test of `aln_iter`. */
  predicate Mergeable(last: Alignment, aln: Alignment)
  {
    && last.forward.Some?
    && aln.reverse.Some?
    && last.readNum == aln.readNum
    && last.chromosome == aln.chromosome
    && last.strand == aln.strand
  }

  /** The record yielded for a merged pair: `last`'s place and forward part,
      `aln`'s reverse part, nothing joined. */
  function Merge(last: Alignment, aln: Alignment): Alignment
  {
    Alignment(last.readNum, last.chromosome, last.strand, last.forward, aln.reverse, None)
  }

  /** Reference definition: read the records from the left; a record that is
      mergeable with the next one is fused with it and both are consumed,
      otherwise it is passed through alone. */
  function Pairs(recs: seq<Alignment>): seq<Alignment>
    decreases |recs|
  {
    if |recs| <= 1 then recs
    else if Mergeable(recs[0], recs[1]) then [Merge(recs[0], recs[1])] + Pairs(recs[2..])
    else [recs[0]] + Pairs(recs[1..])
  }

  /** What the loop has yielded so far and what sits in the `last` slot. */
  datatype State = State(emitted: seq<Alignment>, pending: Option<Alignment>)

  /** One turn of the loop body with `aln` as the next record. */
  function Step(st: State, aln: Alignment): State
  {
    match st.pending
    case None => State(st.emitted, Some(aln))
    case Some(last) =>
      if Mergeable(last, aln) then State(st.emitted + [Merge(last, aln)], None)
      else State(st.emitted + [last], Some(aln))
  }

  /** The state after the loop has consumed `recs`, starting from an empty
      slot. */
  function Feed(recs: seq<Alignment>): State
  {
    if |recs| == 0 then State([], None)
    else Step(Feed(recs[..|recs| - 1]), recs[|recs| - 1])
  }

  /** The records the final `if last is not None: yield last` adds. */
  function Flush(pending: Option<Alignment>): seq<Alignment>
  {
    if pending.Some? then [pending.value] else []
  }

  /** What is still to come from a pending slot and the remaining records. */
  function Rest(pending: Option<Alignment>, recs: seq<Alignment>): seq<Alignment>
  {
    if pending.Some? then Pairs([pending.value] + recs) else Pairs(recs)
  }

  /** One unfolding of `Pairs` on a record put in front of others. */
  lemma PairsUnfold(last: Alignment, recs: seq<Alignment>)
    requires |recs| > 0
    ensures Pairs([last] + recs) ==
      if Mergeable(last, recs[0]) then [Merge(last, recs[0])] + Pairs(recs[1..])
      else [last] + Pairs(recs)
  {
    var s := [last] + recs;
    assert s[1..] == recs;
    assert s[2..] == recs[1..];
  }

  /** One turn of the loop does not change what the whole run yields. */
  lemma StepRest(st: State, aln: Alignment, rest: seq<Alignment>)
    ensures st.emitted + Rest(st.pending, [aln] + rest) ==
            Step(st, aln).emitted + Rest(Step(st, aln).pending, rest)
  {
    if st.pending.Some? {
      PairsUnfold(st.pending.value, [aln] + rest);
      assert ([aln] + rest)[1..] == rest;
    }
  }

  /** After any prefix, what has been yielded followed by what the slot and
      the rest of the records will yield is the reference output. */
  lemma {:induction false} FeedRest(recs: seq<Alignment>, i: nat)
    requires i <= |recs|
    ensures Feed(recs[..i]).emitted + Rest(Feed(recs[..i]).pending, recs[i..]) == Pairs(recs)
  {
    if i == 0 {
      assert recs[..0] == [] && recs[0..] == recs;
    } else {
      FeedRest(recs, i - 1);
      assert recs[..i][..i - 1] == recs[..i - 1];
      assert recs[i - 1..] == [recs[i - 1]] + recs[i..];
      StepRest(Feed(recs[..i - 1]), recs[i - 1], recs[i..]);
    }
  }

  /** The loop followed by the final flush computes the reference output. */
  lemma FeedFlushIsPairs(recs: seq<Alignment>)
    ensures Feed(recs).emitted + Flush(Feed(recs).pending) == Pairs(recs)
  {
    FeedRest(recs, |recs|);
    assert recs[..|recs|] == recs;
    assert recs[|recs|..] == [];
  }

  /** The slot holds at most one record, the last one read; with
      `FeedFlushIsPairs`, what has been yielded is the reference output of
      the records read so far with at most that record missing. */
  lemma FeedPendingIsLast(recs: seq<Alignment>)
    ensures Feed(recs).pending.Some? ==> |recs| > 0 && Feed(recs).pending.value == recs[|recs| - 1]
  {
  }

  /** `aln_iter(lines)`: the records are parsed one line at a time; a line
      that fails stops the stream with its error after what had already been
      yielded, without flushing the slot. */
  method AlnIter(lines: seq<string>) returns (out: seq<Alignment>, err: Option<ParseError>)
    ensures ParseLines(lines).Success? ==> err.None? && out == Pairs(ParseLines(lines).value)
    ensures ParseLines(lines).Failure? ==>
      && err == Some(ParseLines(lines).error.error)
      && out == Feed(ParseLines(lines[..ParseLines(lines).error.index]).value).emitted
  {
    out, err := [], None;
    if |lines| == 0 {
      // alns.next() on an empty stream ends the generator.
      assert lines == [];
      return;
    }
    var first := ParseLine(lines[0]);
    assert lines[..0] == [];
    ParseEachNext(ParseAlignment, lines, 0);
    if first.Failure? {
      ParseEachFailureStays(ParseAlignment, lines, 1);
      err := Some(first.error);
      return;
    }
    var last: Option<Alignment> := Some(first.value);
    ghost var recs: seq<Alignment> := [first.value];
    FeedNext([], first.value);
    assert [] + [first.value] == recs;
    var i := 1;
    while i < |lines|
      invariant 1 <= i <= |lines|
      invariant ParseLines(lines[..i]) == Success(recs)
      invariant Feed(recs) == State(out, last)
    {
      var r := ParseLine(lines[i]);
      ParseEachNext(ParseAlignment, lines, i);
      if r.Failure? {
        ParseEachFailureStays(ParseAlignment, lines, i + 1);
        err := Some(r.error);
        return;
      }
      var aln := r.value;
      FeedNext(recs, aln);
      if last.None? {
        last := Some(aln);
      } else if Mergeable(last.value, aln) {
        out := out + [Merge(last.value, aln)];
        last := None;
      } else {
        out := out + [last.value];
        last := Some(aln);
      }
      recs := recs + [aln];
      i := i + 1;
    }
    assert lines[..i] == lines;
    FeedFlushIsPairs(recs);
    if last.Some? {
      out := out + [last.value];
    }
  }

  /** Feeding one more record is one more turn of the loop. */
  lemma FeedNext(recs: seq<Alignment>, aln: Alignment)
    ensures Feed(recs + [aln]) == Step(Feed(recs), aln)
  {
    assert (recs + [aln])[..|recs|] == recs;
  }

  // ---------------------------------------------------------------------
  // What the reference output is: every input once, in order, fused pairs
  // exactly where the leftmost reading finds a mergeable neighbour.

  predicate AllSingletons(recs: seq<Alignment>)
  {
    forall k :: 0 <= k < |recs| ==> recs[k].IsSingleton()
  }

  /** The forward-only record a fused pair was built from. */
  function ForwardHalf(o: Alignment): Alignment
  {
    Alignment(o.readNum, o.chromosome, o.strand, o.forward, None, None)
  }

  /** The reverse-only record a fused pair was built from. */
  function ReverseHalf(o: Alignment): Alignment
  {
    Alignment(o.readNum, o.chromosome, o.strand, None, o.reverse, None)
  }

  /** The input records one output record stands for. */
  function Halves(o: Alignment): seq<Alignment>
  {
    if o.IsPaired() then [ForwardHalf(o), ReverseHalf(o)] else [o]
  }

  /** The input records a sequence of output records stands for. */
  function Unfuse(outs: seq<Alignment>): seq<Alignment>
  {
    if |outs| == 0 then [] else Halves(outs[0]) + Unfuse(outs[1..])
  }

  /** The first input record an output record stands for. */
  function Lead(o: Alignment): Alignment
  {
    Halves(o)[0]
  }

  function PairedCount(outs: seq<Alignment>): nat
  {
    if |outs| == 0 then 0 else (if outs[0].IsPaired() then 1 else 0) + PairedCount(outs[1..])
  }

  /** Each output record is a record read from a line or a fused pair. */
  predicate OutputShapes(outs: seq<Alignment>)
  {
    forall j :: 0 <= j < |outs| ==> outs[j].IsSingleton() || outs[j].IsPaired()
  }

  /** No record passed through alone could have been fused with the input
      record that follows it. */
  predicate Greedy(outs: seq<Alignment>)
  {
    forall j :: 0 <= j < |outs| - 1 && !outs[j].IsPaired() ==> !Mergeable(outs[j], Lead(outs[j + 1]))
  }

  /** Every input record appears exactly once in the output, in its order,
      either alone or as one half of a fused pair. */
  lemma {:induction false} PairsUnfuse(recs: seq<Alignment>)
    requires AllSingletons(recs)
    ensures Unfuse(Pairs(recs)) == recs
    decreases |recs|
  {
    if |recs| >= 2 {
      var rest := if Mergeable(recs[0], recs[1]) then recs[2..] else recs[1..];
      assert AllSingletons(rest) by {
        forall k | 0 <= k < |rest| ensures rest[k].IsSingleton() {
          assert rest[k] == recs[k + |recs| - |rest|];
        }
      }
      PairsUnfuse(rest);
      var out := Pairs(recs);
      assert out[1..] == Pairs(rest);
      if Mergeable(recs[0], recs[1]) {
        assert Halves(out[0]) == [recs[0], recs[1]];
        assert recs == [recs[0], recs[1]] + rest;
      } else {
        assert Halves(out[0]) == [recs[0]];
        assert recs == [recs[0]] + rest;
      }
    }
  }

  lemma {:induction false} UnfuseLength(outs: seq<Alignment>)
    ensures |Unfuse(outs)| == |outs| + PairedCount(outs)
  {
    if |outs| > 0 {
      UnfuseLength(outs[1..]);
    }
  }

  /** The output has one record per input record, less one per merge. */
  lemma PairsCount(recs: seq<Alignment>)
    requires AllSingletons(recs)
    ensures |Pairs(recs)| == |recs| - PairedCount(Pairs(recs))
  {
    PairsUnfuse(recs);
    UnfuseLength(Pairs(recs));
  }

  /** The output begins with the first input record, alone or fused. */
  lemma PairsLead(recs: seq<Alignment>)
    requires AllSingletons(recs) && |recs| > 0
    ensures |Pairs(recs)| > 0 && Lead(Pairs(recs)[0]) == recs[0]
  {
    if |recs| >= 2 {
      assert recs[0].IsSingleton();
    }
  }

  /** The output of singleton records holds singletons and fused pairs only,
      and no record left alone could have merged with the next input. */
  lemma {:induction false} PairsShapesAndGreedy(recs: seq<Alignment>)
    requires AllSingletons(recs)
    ensures OutputShapes(Pairs(recs)) && Greedy(Pairs(recs))
    decreases |recs|
  {
    if |recs| >= 2 {
      var merged := Mergeable(recs[0], recs[1]);
      var rest := if merged then recs[2..] else recs[1..];
      assert AllSingletons(rest) by {
        forall k | 0 <= k < |rest| ensures rest[k].IsSingleton() {
          assert rest[k] == recs[k + |recs| - |rest|];
        }
      }
      PairsShapesAndGreedy(rest);
      var out := Pairs(recs);
      var tail := Pairs(rest);
      assert out == [out[0]] + tail;
      forall j | 0 < j < |out| ensures out[j] == tail[j - 1] { }
      if !merged {
        assert recs[0].IsSingleton();
        PairsLead(rest);
      }
    }
  }

  /** The three properties above determine the output: any sequence of
      singletons and fused pairs that stands for the input records in order
      and passes no mergeable neighbour by is the reference output. */
  lemma {:induction false} PairsUnique(recs: seq<Alignment>, outs: seq<Alignment>)
    requires OutputShapes(outs) && Greedy(outs) && Unfuse(outs) == recs
    ensures outs == Pairs(recs)
    decreases |outs|
  {
    if |outs| > 0 {
      var o, rest := outs[0], outs[1..];
      assert OutputShapes(rest) by {
        forall j | 0 <= j < |rest| ensures rest[j].IsSingleton() || rest[j].IsPaired() {
          assert rest[j] == outs[j + 1];
        }
      }
      assert Greedy(rest) by {
        forall j | 0 <= j < |rest| - 1 && !rest[j].IsPaired()
          ensures !Mergeable(rest[j], Lead(rest[j + 1]))
        {
          assert rest[j] == outs[j + 1] && rest[j + 1] == outs[j + 2];
        }
      }
      PairsUnique(Unfuse(rest), rest);
      assert recs == Halves(o) + Unfuse(rest);
      if o.IsPaired() {
        assert Merge(ForwardHalf(o), ReverseHalf(o)) == o;
        assert recs[2..] == Unfuse(rest);
      } else if |rest| > 0 {
        assert recs[1..] == Unfuse(rest);
        assert recs[1] == Lead(rest[0]);
        assert !Mergeable(outs[0], Lead(outs[1]));
      } else {
        assert recs == [o];
      }
    }
  }

  /** A record read as joined is never merged: it reaches the output as it
      came in. */
  lemma {:induction false} JoinedPassThrough(recs: seq<Alignment>, k: nat)
    requires AllSingletons(recs)
    requires k < |recs| && recs[k].joined.Some?
    ensures recs[k] in Pairs(recs)
    decreases |recs|
  {
    if |recs| >= 2 && k > 0 {
      var merged := Mergeable(recs[0], recs[1]);
      var drop := if merged then 2 else 1;
      assert recs[1].IsSingleton();
      assert merged ==> k >= 2;
      var rest := recs[drop..];
      assert AllSingletons(rest) by {
        forall i | 0 <= i < |rest| ensures rest[i].IsSingleton() {
          assert rest[i] == recs[i + drop];
        }
      }
      assert rest[k - drop] == recs[k];
      JoinedPassThrough(rest, k - drop);
      assert Pairs(recs) == [Pairs(recs)[0]] + Pairs(rest);
    }
  }

  /** The records `aln_iter(lines)` yields before it ends or raises. */
  function Emitted(lines: seq<string>): seq<Alignment>
  {
    match ParseLines(lines)
    case Success(recs) => Pairs(recs)
    case Failure(f) => Feed(ParseLines(lines[..f.index]).value).emitted
  }

  /** The exception `aln_iter(lines)` ends with, if any. */
  function Raised(lines: seq<string>): Option<ParseError>
  {
    match ParseLines(lines)
    case Success(_) => None
    case Failure(f) => Some(f.error)
  }

  /** The records of lines that all parse are lone forward, reverse or
      joined records, so the properties of `Pairs` above apply to them. */
  lemma ParsedAreSingletons(lines: seq<string>)
    requires ParseLines(lines).Success?
    ensures AllSingletons(ParseLines(lines).value)
  {
    var recs := ParseLines(lines).value;
    forall k | 0 <= k < |recs| ensures recs[k].IsSingleton() {
      assert ParseAlignment(lines[k]) == Success(recs[k]);
    }
  }

  /** Small cases of the pairing rules: a forward record fuses with the
      reverse record right after it only when read number, chromosome and
      strand agree and the forward one comes first; after a merge the slot
      is empty, so a third record is not compared with the pair. */
  lemma PairingExamples(p: AlignmentPart, q: AlignmentPart)
    ensures var f1, r1 := Alignment(1, "chr1", "+", Some(p), None, None), Alignment(1, "chr1", "+", None, Some(q), None);
      && Pairs([f1, r1]) == [Alignment(1, "chr1", "+", Some(p), Some(q), None)]
      && Pairs([r1, f1]) == [r1, f1]
      && Pairs([f1, r1, r1]) == [Alignment(1, "chr1", "+", Some(p), Some(q), None), r1]
      && Pairs([f1, f1, r1]) == [f1, Alignment(1, "chr1", "+", Some(p), Some(q), None)]
    ensures var f1, r2 := Alignment(1, "chr1", "+", Some(p), None, None), Alignment(2, "chr1", "+", None, Some(q), None);
      Pairs([f1, r2]) == [f1, r2]
    ensures var f1, r1 := Alignment(1, "chr1", "+", Some(p), None, None), Alignment(1, "chr2", "+", None, Some(q), None);
      Pairs([f1, r1]) == [f1, r1]
    ensures var f1, r1 := Alignment(1, "chr1", "+", Some(p), None, None), Alignment(1, "chr1", "-", None, Some(q), None);
      Pairs([f1, r1]) == [f1, r1]
    ensures var j1, r1 := Alignment(1, "chr1", "+", None, None, Some(p)), Alignment(1, "chr1", "+", None, Some(q), None);
      Pairs([j1, r1]) == [j1, r1]
  {
    var f1, r1 := Alignment(1, "chr1", "+", Some(p), None, None), Alignment(1, "chr1", "+", None, Some(q), None);
    assert [f1, r1, r1][2..] == [r1];
    assert [f1, f1, r1][1..] == [f1, r1];
  }
}
