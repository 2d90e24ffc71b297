/** The tallies of bin/rum_mapping_stats.py: `unique_stats` and `nu_stats`
    mark read numbers in boolean arrays of size n + 1 as they walk the
    stream `aln_iter` yields, then sum the arrays (and, for the non-unique
    file, combinations of them).

    Each mark array ends up holding exactly the set of read numbers of the
    records that mark it (`Reads`); every count is the size of such a set,
    or of a set built from them with the operations `&`, `|` and `~` stand
    for. */
module MappingStats {
  import opened Wrappers
  import opened RumAlignment
  import opened Pairing

  /** The arrays the two tallies fill. */
  datatype Mark =
    | UniqueFwdOnly | UniqueRevOnly | UniqueJoined | UniqueUnjoined
    | NuFwd | NuRev | NuBoth

  /** The one array `unique_stats` sets for a record, if any. */
  function UniqueMarkOf(aln: Alignment): Option<Mark>
  {
    if aln.joined.Some? then Some(UniqueJoined)
    else if aln.forward.Some? && aln.reverse.Some? then Some(UniqueUnjoined)
    else if aln.forward.Some? then Some(UniqueFwdOnly)
    else if aln.reverse.Some? then Some(UniqueRevOnly)
    else None
  }

  /** The record sets array `m` (for the unique arrays, at most one of them;
      `nu_stats` may set `fwd` or `rev` together with `both`). */
  predicate Marks(aln: Alignment, m: Mark)
  {
    match m
    case NuFwd => aln.forward.Some?
    case NuRev => aln.reverse.Some?
    case NuBoth => aln.joined.Some? || (aln.forward.Some? && aln.reverse.Some?)
    case _ => UniqueMarkOf(aln) == Some(m)
  }

  /** The record writes some array entry, so its read number must be an index. */
  predicate Touches(aln: Alignment)
  {
    aln.forward.Some? || aln.reverse.Some? || aln.joined.Some?
  }

  predicate OutOfRange(aln: Alignment, n: int)
  {
    Touches(aln) && aln.readNum > n
  }

  /** The read numbers of the records that mark array `m`. */
  function Reads(alns: seq<Alignment>, m: Mark): set<nat>
  {
    if |alns| == 0 then {}
    else
      var last := alns[|alns| - 1];
      Reads(alns[..|alns| - 1], m) + (if Marks(last, m) then {last.readNum} else {})
  }

  /** The indexes of the true entries of a boolean array. */
  function Marked(s: seq<bool>): set<nat>
  {
    set r: nat | r < |s| && s[r]
  }

  /** The first record whose read number is not an index of the arrays of
      size n + 1, which is where numpy raises `IndexError`. */
  function FirstOutOfRange(alns: seq<Alignment>, n: int): (r: Option<nat>)
    ensures r.Some? ==> r.value < |alns| && OutOfRange(alns[r.value], n)
    ensures r.Some? ==> forall k :: 0 <= k < r.value ==> !OutOfRange(alns[k], n)
    ensures r.None? ==> forall k :: 0 <= k < |alns| ==> !OutOfRange(alns[k], n)
  {
    if |alns| == 0 then None
    else
      var init := alns[..|alns| - 1];
      assert forall k :: 0 <= k < |init| ==> init[k] == alns[k];
      match FirstOutOfRange(init, n)
      case Some(j) => Some(j)
      case None => if OutOfRange(alns[|alns| - 1], n) then Some(|alns| - 1) else None
  }

  /** The first out-of-range record is the one the loop stops at. */
  lemma FirstOutOfRangeAt(alns: seq<Alignment>, n: int, i: nat)
    requires i < |alns| && OutOfRange(alns[i], n)
    requires forall k :: 0 <= k < i ==> !OutOfRange(alns[k], n)
    ensures FirstOutOfRange(alns, n) == Some(i)
  {
  }

  /** A stream with no out-of-range record has no first one. */
  lemma NoneOutOfRange(alns: seq<Alignment>, n: int)
    requires forall k :: 0 <= k < |alns| ==> !OutOfRange(alns[k], n)
    ensures FirstOutOfRange(alns, n).None?
  {
  }

  /** The exceptions the tallies end with. */
  datatype StatsError =
    | NegativeDimensions(dimension: int)      // `zeros(n + 1)` with n + 1 < 0
    | IndexOutOfRange(index: nat, size: nat)  // a read number past the arrays
    | Malformed(error: ParseError)            // a line `aln_iter` cannot parse

  datatype UniqueCounts = UniqueCounts(
    fwdOnly: nat, revOnly: nat, joined: nat, unjoined: nat,
    consistent: nat, fwd: nat, rev: nat, any: nat)

  datatype NuCounts = NuCounts(fwd: nat, rev: nat, consistent: nat, any: nat)

  /** The derived entries of the unique table, from its four sums. */
  function UniqueDerived(fwdOnly: nat, revOnly: nat, joined: nat, unjoined: nat): UniqueCounts
  {
    var consistent := joined + unjoined;
    UniqueCounts(fwdOnly, revOnly, joined, unjoined, consistent,
                 fwdOnly + consistent, revOnly + consistent, fwdOnly + revOnly + consistent)
  }

  /** What `unique_stats` computes from a stream of records, in terms of sets
      of read numbers. */
  function UniqueTally(alns: seq<Alignment>, n: int): Result<UniqueCounts, StatsError>
  {
    if n + 1 < 0 then Failure(NegativeDimensions(n + 1))
    else match FirstOutOfRange(alns, n)
      case Some(j) => Failure(IndexOutOfRange(alns[j].readNum, n + 1))
      case None =>
        Success(UniqueDerived(|Reads(alns, UniqueFwdOnly)|, |Reads(alns, UniqueRevOnly)|,
                              |Reads(alns, UniqueJoined)|, |Reads(alns, UniqueUnjoined)|))
  }

  /** What `nu_stats` computes from a stream of records: reads with a forward
      mate and neither a reverse one nor both, the symmetric count, reads with
      both, and reads with any. */
  function NuTally(alns: seq<Alignment>, n: int): Result<NuCounts, StatsError>
  {
    if n + 1 < 0 then Failure(NegativeDimensions(n + 1))
    else match FirstOutOfRange(alns, n)
      case Some(j) => Failure(IndexOutOfRange(alns[j].readNum, n + 1))
      case None =>
        var f, r, b := Reads(alns, NuFwd), Reads(alns, NuRev), Reads(alns, NuBoth);
        Success(NuCounts(|f - (r + b)|, |r - (f + b)|, |b|, |f + r + b|))
  }

  // ---------------------------------------------------------------------
  // Boolean arrays as sets

  /** numpy's `|` on boolean arrays of one size. */
  function Or(x: seq<bool>, y: seq<bool>): (z: seq<bool>)
    requires |x| == |y|
    ensures |z| == |x| && Marked(z) == Marked(x) + Marked(y)
  {
    var z := seq(|x|, r requires 0 <= r < |x| => x[r] || y[r]);
    assert forall r: nat :: r in Marked(z) <==> r in Marked(x) + Marked(y);
    z
  }

  /** numpy's `x & ~y` on boolean arrays of one size. */
  function AndNot(x: seq<bool>, y: seq<bool>): (z: seq<bool>)
    requires |x| == |y|
    ensures |z| == |x| && Marked(z) == Marked(x) - Marked(y)
  {
    var z := seq(|x|, r requires 0 <= r < |x| => x[r] && !y[r]);
    assert forall r: nat :: r in Marked(z) <==> r in Marked(x) - Marked(y);
    z
  }

  lemma MarkedNone(s: seq<bool>)
    requires forall r :: 0 <= r < |s| ==> !s[r]
    ensures Marked(s) == {}
  {
  }

  lemma MarkedPrefix(s: seq<bool>, i: nat)
    requires i < |s|
    ensures Marked(s[..i + 1]) == Marked(s[..i]) + (if s[i] then {i} else {})
    ensures i !in Marked(s[..i])
  {
    assert forall r: nat :: r < i ==> s[..i + 1][r] == s[..i][r];
  }

  /** numpy's `sum` of a boolean array: the number of true entries. */
  method Sum(s: seq<bool>) returns (c: nat)
    ensures c == |Marked(s)|
  {
    c := 0;
    var i := 0;
    while i < |s|
      invariant 0 <= i <= |s|
      invariant c == |Marked(s[..i])|
    {
      MarkedPrefix(s, i);
      if s[i] {
        c := c + 1;
      }
      i := i + 1;
    }
    assert s[..|s|] == s;
  }

  /** A set of indexes of an array of size `size` has at most `size` members. */
  lemma {:induction false} IndexSetBound(xs: set<nat>, size: nat)
    requires forall x :: x in xs ==> x < size
    ensures |xs| <= size
    decreases size
  {
    if size > 0 {
      var below := set x | x in xs && x < size - 1;
      IndexSetBound(below, size - 1);
      if size - 1 in xs {
        assert xs == below + {size - 1};
      } else {
        assert xs == below;
      }
    } else {
      assert xs == {};
    }
  }

  /** `s` with entry `k` set when `c` holds. */
  function SetIf(s: seq<bool>, k: nat, c: bool): seq<bool>
    requires c ==> k < |s|
  {
    if c then s[k := true] else s
  }

  lemma MarkedSetIf(s: seq<bool>, k: nat, c: bool)
    requires c ==> k < |s|
    ensures Marked(SetIf(s, k, c)) == Marked(s) + (if c then {k} else {})
  {
  }

  // ---------------------------------------------------------------------
  // The tallies

  /** The read numbers a stream marks are those of its records, and nothing
      else. */
  lemma {:induction false} ReadsMembers(alns: seq<Alignment>, m: Mark, r: nat)
    ensures r in Reads(alns, m) <==> exists k :: 0 <= k < |alns| && Marks(alns[k], m) && alns[k].readNum == r
  {
    if |alns| > 0 {
      var init := alns[..|alns| - 1];
      ReadsMembers(init, m, r);
      assert forall k :: 0 <= k < |init| ==> init[k] == alns[k];
      if r in Reads(alns, m) && r !in Reads(init, m) {
        assert Marks(alns[|alns| - 1], m) && alns[|alns| - 1].readNum == r;
      }
    }
  }

  lemma ReadsPrefix(alns: seq<Alignment>, i: nat, m: Mark)
    requires i < |alns|
    ensures Reads(alns[..i + 1], m) == Reads(alns[..i], m) + (if Marks(alns[i], m) then {alns[i].readNum} else {})
  {
    assert alns[..i + 1][..i] == alns[..i];
  }

  /** A record that marks something touches the arrays. */
  lemma MarksTouches(aln: Alignment, m: Mark)
    requires Marks(aln, m)
    ensures Touches(aln)
  {
  }

  /** Every read number a stream without an out-of-range record marks is an
      index of the arrays. */
  lemma ReadsInRange(alns: seq<Alignment>, n: int, m: Mark)
    requires FirstOutOfRange(alns, n).None?
    ensures forall r :: r in Reads(alns, m) ==> r <= n
  {
    forall r | r in Reads(alns, m) ensures r <= n {
      ReadsMembers(alns, m, r);
      var k :| 0 <= k < |alns| && Marks(alns[k], m) && alns[k].readNum == r;
      MarksTouches(alns[k], m);
    }
  }

  /** The body of the loop of `unique_stats` for one record: set the one
      array its kind selects at its read number. */
  method MarkUnique(aln: Alignment, fwdOnly: array<bool>, revOnly: array<bool>, joined: array<bool>, unjoined: array<bool>)
    requires fwdOnly != revOnly && fwdOnly != joined && fwdOnly != unjoined
    requires revOnly != joined && revOnly != unjoined && joined != unjoined
    requires Touches(aln) ==> aln.readNum < fwdOnly.Length && aln.readNum < revOnly.Length
    requires Touches(aln) ==> aln.readNum < joined.Length && aln.readNum < unjoined.Length
    modifies fwdOnly, revOnly, joined, unjoined
    ensures fwdOnly[..] == SetIf(old(fwdOnly[..]), aln.readNum, Marks(aln, UniqueFwdOnly))
    ensures revOnly[..] == SetIf(old(revOnly[..]), aln.readNum, Marks(aln, UniqueRevOnly))
    ensures joined[..] == SetIf(old(joined[..]), aln.readNum, Marks(aln, UniqueJoined))
    ensures unjoined[..] == SetIf(old(unjoined[..]), aln.readNum, Marks(aln, UniqueUnjoined))
  {
    var i := aln.readNum;
    if aln.joined.Some? {
      joined[i] := true;
    } else {
      var fwd := aln.forward.Some?;
      var rev := aln.reverse.Some?;
      if fwd && rev {
        unjoined[i] := true;
      } else if fwd {
        fwdOnly[i] := true;
      } else if rev {
        revOnly[i] := true;
      }
    }
  }

  /** The body of the loop of `nu_stats` for one record. */
  method MarkNu(aln: Alignment, fwd: array<bool>, rev: array<bool>, both: array<bool>)
    requires fwd != rev && fwd != both && rev != both
    requires Touches(aln) ==> aln.readNum < fwd.Length && aln.readNum < rev.Length && aln.readNum < both.Length
    modifies fwd, rev, both
    ensures fwd[..] == SetIf(old(fwd[..]), aln.readNum, Marks(aln, NuFwd))
    ensures rev[..] == SetIf(old(rev[..]), aln.readNum, Marks(aln, NuRev))
    ensures both[..] == SetIf(old(both[..]), aln.readNum, Marks(aln, NuBoth))
  {
    var i := aln.readNum;
    if aln.forward.Some? {
      fwd[i] := true;
    }
    if aln.reverse.Some? {
      rev[i] := true;
    }
    if aln.joined.Some? || (aln.forward.Some? && aln.reverse.Some?) {
      both[i] := true;
    }
  }

  lemma UniqueTallyOfMarked(alns: seq<Alignment>, n: int, fs: seq<bool>, rs: seq<bool>, js: seq<bool>, us: seq<bool>)
    requires n + 1 >= 0 && FirstOutOfRange(alns, n).None?
    requires Marked(fs) == Reads(alns, UniqueFwdOnly) && Marked(rs) == Reads(alns, UniqueRevOnly)
    requires Marked(js) == Reads(alns, UniqueJoined) && Marked(us) == Reads(alns, UniqueUnjoined)
    ensures UniqueTally(alns, n) == Success(UniqueDerived(|Marked(fs)|, |Marked(rs)|, |Marked(js)|, |Marked(us)|))
  {
  }

  /** The loop of `unique_stats`: mark the four arrays record by record,
      stopping at the first read number past them. */
  method MarkUniqueAll(alns: seq<Alignment>, n: int, fwdOnly: array<bool>, revOnly: array<bool>, joined: array<bool>, unjoined: array<bool>)
    returns (bad: Option<nat>)
    requires fwdOnly != revOnly && fwdOnly != joined && fwdOnly != unjoined
    requires revOnly != joined && revOnly != unjoined && joined != unjoined
    requires fwdOnly.Length == revOnly.Length == joined.Length == unjoined.Length == n + 1
    requires Marked(fwdOnly[..]) == Marked(revOnly[..]) == Marked(joined[..]) == Marked(unjoined[..]) == {}
    modifies fwdOnly, revOnly, joined, unjoined
    ensures bad == FirstOutOfRange(alns, n)
    ensures bad.None? ==> Marked(fwdOnly[..]) == Reads(alns, UniqueFwdOnly) && Marked(revOnly[..]) == Reads(alns, UniqueRevOnly)
    ensures bad.None? ==> Marked(joined[..]) == Reads(alns, UniqueJoined) && Marked(unjoined[..]) == Reads(alns, UniqueUnjoined)
  {
    var i := 0;
    while i < |alns|
      invariant 0 <= i <= |alns|
      invariant forall k :: 0 <= k < i ==> !OutOfRange(alns[k], n)
      invariant Marked(fwdOnly[..]) == Reads(alns[..i], UniqueFwdOnly)
      invariant Marked(revOnly[..]) == Reads(alns[..i], UniqueRevOnly)
      invariant Marked(joined[..]) == Reads(alns[..i], UniqueJoined)
      invariant Marked(unjoined[..]) == Reads(alns[..i], UniqueUnjoined)
    {
      var aln := alns[i];
      var k := aln.readNum;
      if OutOfRange(aln, n) {
        FirstOutOfRangeAt(alns, n, i);
        return Some(i);
      }
      ghost var f0, r0, j0, u0 := fwdOnly[..], revOnly[..], joined[..], unjoined[..];
      MarkUnique(aln, fwdOnly, revOnly, joined, unjoined);
      MarkedSetIf(f0, k, Marks(aln, UniqueFwdOnly));
      MarkedSetIf(r0, k, Marks(aln, UniqueRevOnly));
      MarkedSetIf(j0, k, Marks(aln, UniqueJoined));
      MarkedSetIf(u0, k, Marks(aln, UniqueUnjoined));
      ReadsPrefix(alns, i, UniqueFwdOnly);
      ReadsPrefix(alns, i, UniqueRevOnly);
      ReadsPrefix(alns, i, UniqueJoined);
      ReadsPrefix(alns, i, UniqueUnjoined);
      i := i + 1;
    }
    assert alns[..i] == alns;
    NoneOutOfRange(alns, n);
    return None;
  }

  /** `unique_stats` without the file and the percentages: one pass marking
      the four arrays, stopped by the first read number past them, then the
      sums and the derived entries. */
  method UniqueStats(alns: seq<Alignment>, n: int) returns (r: Result<UniqueCounts, StatsError>)
    ensures r == UniqueTally(alns, n)
  {
    if n + 1 < 0 {
      return Failure(NegativeDimensions(n + 1));
    }
    var fwdOnly := new bool[n + 1](_ => false);
    var revOnly := new bool[n + 1](_ => false);
    var joined := new bool[n + 1](_ => false);
    var unjoined := new bool[n + 1](_ => false);
    MarkedNone(fwdOnly[..]);
    MarkedNone(revOnly[..]);
    MarkedNone(joined[..]);
    MarkedNone(unjoined[..]);
    var bad := MarkUniqueAll(alns, n, fwdOnly, revOnly, joined, unjoined);
    if bad.Some? {
      return Failure(IndexOutOfRange(alns[bad.value].readNum, n + 1));
    }
    var fs, rs, js, us := fwdOnly[..], revOnly[..], joined[..], unjoined[..];
    var a := Sum(fs);
    var b := Sum(rs);
    var c := Sum(js);
    var d := Sum(us);
    UniqueTallyOfMarked(alns, n, fs, rs, js, us);
    r := Success(UniqueDerived(a, b, c, d));
  }

  /** The loop of `nu_stats`: mark the three arrays record by record,
      stopping at the first read number past them. */
  method MarkNuAll(alns: seq<Alignment>, n: int, fwd: array<bool>, rev: array<bool>, both: array<bool>)
    returns (bad: Option<nat>)
    requires fwd != rev && fwd != both && rev != both
    requires fwd.Length == rev.Length == both.Length == n + 1
    requires Marked(fwd[..]) == Marked(rev[..]) == Marked(both[..]) == {}
    modifies fwd, rev, both
    ensures bad == FirstOutOfRange(alns, n)
    ensures bad.None? ==> Marked(fwd[..]) == Reads(alns, NuFwd) && Marked(rev[..]) == Reads(alns, NuRev)
    ensures bad.None? ==> Marked(both[..]) == Reads(alns, NuBoth)
  {
    var i := 0;
    while i < |alns|
      invariant 0 <= i <= |alns|
      invariant forall k :: 0 <= k < i ==> !OutOfRange(alns[k], n)
      invariant Marked(fwd[..]) == Reads(alns[..i], NuFwd)
      invariant Marked(rev[..]) == Reads(alns[..i], NuRev)
      invariant Marked(both[..]) == Reads(alns[..i], NuBoth)
    {
      var aln := alns[i];
      var k := aln.readNum;
      if OutOfRange(aln, n) {
        FirstOutOfRangeAt(alns, n, i);
        return Some(i);
      }
      ghost var f0, r0, b0 := fwd[..], rev[..], both[..];
      MarkNu(aln, fwd, rev, both);
      MarkedSetIf(f0, k, Marks(aln, NuFwd));
      MarkedSetIf(r0, k, Marks(aln, NuRev));
      MarkedSetIf(b0, k, Marks(aln, NuBoth));
      ReadsPrefix(alns, i, NuFwd);
      ReadsPrefix(alns, i, NuRev);
      ReadsPrefix(alns, i, NuBoth);
      i := i + 1;
    }
    assert alns[..i] == alns;
    NoneOutOfRange(alns, n);
    return None;
  }

  lemma NuTallyOfMarked(alns: seq<Alignment>, n: int, fs: seq<bool>, rs: seq<bool>, bs: seq<bool>)
    requires n + 1 >= 0 && FirstOutOfRange(alns, n).None?
    requires Marked(fs) == Reads(alns, NuFwd) && Marked(rs) == Reads(alns, NuRev) && Marked(bs) == Reads(alns, NuBoth)
    ensures NuTally(alns, n) == Success(NuCounts(
      |Marked(fs) - (Marked(rs) + Marked(bs))|, |Marked(rs) - (Marked(fs) + Marked(bs))|,
      |Marked(bs)|, |Marked(fs) + Marked(rs) + Marked(bs)|))
  {
  }

  /** `nu_stats` without the file and the percentages: one pass marking the
      three arrays, then the sums of `fwd & ~(rev | both)`,
      `rev & ~(fwd | both)`, `both` and `fwd | rev | both`. */
  method NuStats(alns: seq<Alignment>, n: int) returns (r: Result<NuCounts, StatsError>)
    ensures r == NuTally(alns, n)
  {
    if n + 1 < 0 {
      return Failure(NegativeDimensions(n + 1));
    }
    var fwd := new bool[n + 1](_ => false);
    var rev := new bool[n + 1](_ => false);
    var both := new bool[n + 1](_ => false);
    MarkedNone(fwd[..]);
    MarkedNone(rev[..]);
    MarkedNone(both[..]);
    var bad := MarkNuAll(alns, n, fwd, rev, both);
    if bad.Some? {
      return Failure(IndexOutOfRange(alns[bad.value].readNum, n + 1));
    }
    var f, v, b := fwd[..], rev[..], both[..];
    var fwdCount := Sum(AndNot(f, Or(v, b)));
    var revCount := Sum(AndNot(v, Or(f, b)));
    var bothCount := Sum(b);
    var anyCount := Sum(Or(Or(f, v), b));
    NuTallyOfMarked(alns, n, f, v, b);
    r := Success(NuCounts(fwdCount, revCount, bothCount, anyCount));
  }

  /** When the tally succeeds each base count is at most the size of the
      arrays, n + 1, and at most the number of records. */
  lemma UniqueTallyBounds(alns: seq<Alignment>, n: int)
    requires UniqueTally(alns, n).Success?
    ensures var c := UniqueTally(alns, n).value;
      && c.fwdOnly <= n + 1 && c.revOnly <= n + 1 && c.joined <= n + 1 && c.unjoined <= n + 1
      && c.fwdOnly <= |alns| && c.revOnly <= |alns| && c.joined <= |alns| && c.unjoined <= |alns|
      && c.consistent == c.joined + c.unjoined
      && c.fwd == c.fwdOnly + c.consistent && c.rev == c.revOnly + c.consistent
      && c.any == c.fwdOnly + c.revOnly + c.consistent
  {
    forall m | m in {UniqueFwdOnly, UniqueRevOnly, UniqueJoined, UniqueUnjoined}
      ensures |Reads(alns, m)| <= n + 1 && |Reads(alns, m)| <= |alns|
    {
      ReadsInRange(alns, n, m);
      IndexSetBound(Reads(alns, m), n + 1);
      ReadsAtMostRecords(alns, m);
    }
  }

  /** Each record adds at most one read number to a set. */
  lemma {:induction false} ReadsAtMostRecords(alns: seq<Alignment>, m: Mark)
    ensures |Reads(alns, m)| <= |alns|
  {
    if |alns| > 0 {
      ReadsAtMostRecords(alns[..|alns| - 1], m);
    }
  }

  /** The tally fails exactly when n + 1 is negative or some record's read
      number is past the arrays, and then names the first such read number. */
  lemma TallyFailures(alns: seq<Alignment>, n: int)
    ensures UniqueTally(alns, n).Failure? <==> n < -1 || exists k :: 0 <= k < |alns| && OutOfRange(alns[k], n)
    ensures NuTally(alns, n).Failure? <==> UniqueTally(alns, n).Failure?
    ensures UniqueTally(alns, n).Failure? ==> NuTally(alns, n).error == UniqueTally(alns, n).error
    ensures n >= -1 && UniqueTally(alns, n).Failure? ==>
      exists k :: 0 <= k < |alns| && OutOfRange(alns[k], n)
        && (forall j :: 0 <= j < k ==> !OutOfRange(alns[j], n))
        && UniqueTally(alns, n).error == IndexOutOfRange(alns[k].readNum, n + 1)
  {
  }

  /** The four non-unique counts: the three classes are disjoint parts of
      the reads with any mate, and none exceeds the size of the arrays. */
  lemma NuTallyBounds(alns: seq<Alignment>, n: int)
    requires NuTally(alns, n).Success?
    ensures var c := NuTally(alns, n).value;
      && c.fwd + c.rev + c.consistent <= c.any <= n + 1
  {
    var f, r, b := Reads(alns, NuFwd), Reads(alns, NuRev), Reads(alns, NuBoth);
    ReadsInRange(alns, n, NuFwd);
    ReadsInRange(alns, n, NuRev);
    ReadsInRange(alns, n, NuBoth);
    IndexSetBound(f + r + b, n + 1);
    ExclusiveParts(f, r, b);
  }

  /** The reads only in `f`, only in `r` and those in `b` are disjoint parts
      of the union. */
  lemma ExclusiveParts(f: set<nat>, r: set<nat>, b: set<nat>)
    ensures |f - (r + b)| + |r - (f + b)| + |b| <= |f + r + b|
  {
    var u := f + r + b;
    var x, y := f - (r + b), r - (f + b);
    assert x !! y && (x + y) !! b;
    assert |x + y| == |x| + |y|;
    assert |x + y + b| == |x + y| + |b|;
    var parts := x + y + b;
    assert u == parts + (u - parts);
    assert |u| == |parts| + |u - parts|;
  }

  /** A record lands in one of fwd_only, rev_only, joined and unjoined
      exactly when it has some part. */
  lemma UniqueMarkOfTouches(aln: Alignment)
    ensures UniqueMarkOf(aln).Some? <==> Touches(aln)
    ensures UniqueMarkOf(aln).Some? ==>
      UniqueMarkOf(aln).value in {UniqueFwdOnly, UniqueRevOnly, UniqueJoined, UniqueUnjoined}
  {
  }

  /** A record lands in at most one of fwd_only, rev_only, joined and
      unjoined. */
  lemma UniqueMarkExclusive(aln: Alignment, m: Mark, m': Mark)
    requires m in {UniqueFwdOnly, UniqueRevOnly, UniqueJoined, UniqueUnjoined}
    requires m' in {UniqueFwdOnly, UniqueRevOnly, UniqueJoined, UniqueUnjoined}
    requires Marks(aln, m) && Marks(aln, m')
    ensures m == m'
  {
  }

  /** When no read number is in two of the unique classes, `any` is the number
      of reads with at least one mate mapped uniquely. */
  lemma UniqueAnyIsUnion(alns: seq<Alignment>, n: int)
    requires UniqueTally(alns, n).Success?
    requires Reads(alns, UniqueFwdOnly) !! Reads(alns, UniqueRevOnly)
    requires (Reads(alns, UniqueFwdOnly) + Reads(alns, UniqueRevOnly)) !! (Reads(alns, UniqueJoined) + Reads(alns, UniqueUnjoined))
    requires Reads(alns, UniqueJoined) !! Reads(alns, UniqueUnjoined)
    ensures UniqueTally(alns, n).value.any ==
      |Reads(alns, UniqueFwdOnly) + Reads(alns, UniqueRevOnly) + Reads(alns, UniqueJoined) + Reads(alns, UniqueUnjoined)|
  {
    var a, b, c, d := Reads(alns, UniqueFwdOnly), Reads(alns, UniqueRevOnly), Reads(alns, UniqueJoined), Reads(alns, UniqueUnjoined);
    assert |a + b| == |a| + |b|;
    assert |c + d| == |c| + |d|;
    assert a + b + c + d == (a + b) + (c + d);
  }

  /** The unjoined reads are those of the fused pairs in the stream. */
  lemma UnjoinedAreFused(alns: seq<Alignment>, r: nat)
    requires OutputShapes(alns)
    ensures r in Reads(alns, UniqueUnjoined) <==> exists k :: 0 <= k < |alns| && alns[k].IsPaired() && alns[k].readNum == r
  {
    ReadsMembers(alns, UniqueUnjoined, r);
  }

  // ---------------------------------------------------------------------
  // The tallies over the lines of a file

  /** The stream's own exception comes after the records yielded before it,
      which the tally has already used. */
  function AfterStream<C>(tally: Result<C, StatsError>, raised: Option<ParseError>): Result<C, StatsError>
  {
    if tally.Success? && raised.Some? then Failure(Malformed(raised.value)) else tally
  }

  /** `unique_stats` over the lines of the unique file. */
  method UniqueStatsOfLines(lines: seq<string>, n: int) returns (r: Result<UniqueCounts, StatsError>)
    ensures r == AfterStream(UniqueTally(Emitted(lines), n), Raised(lines))
    ensures ParseLines(lines).Success? ==> r == UniqueTally(Pairs(ParseLines(lines).value), n)
  {
    var out, err := AlnIter(lines);
    r := UniqueStats(out, n);
    if r.Success? && err.Some? {
      r := Failure(Malformed(err.value));
    }
  }

  /** `nu_stats` over the lines of the non-unique file. */
  method NuStatsOfLines(lines: seq<string>, n: int) returns (r: Result<NuCounts, StatsError>)
    ensures r == AfterStream(NuTally(Emitted(lines), n), Raised(lines))
    ensures ParseLines(lines).Success? ==> r == NuTally(Pairs(ParseLines(lines).value), n)
  {
    var out, err := AlnIter(lines);
    r := NuStats(out, n);
    if r.Success? && err.Some? {
      r := Failure(Malformed(err.value));
    }
  }
}
