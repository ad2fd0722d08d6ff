/**
 * The numbering wrapper: sanitising and marshalling a call to the numbering
 * engine (`run_numbering`), joining its residues (`get_numbered_seq`) and
 * splitting them into the seven framework / CDR regions (`extract_regions`).
 */
module Numbering {
  import opened Wrappers
  import opened PyStr
  import opened Engine

  /** The two `ValueError`s this code raises itself. */
  datatype Error = InvalidSequence(sequence: string) | InvalidScheme

  /**
   * The text of the raised error: the offending cleaned sequence follows a
   * fixed 18-character lead-in, and the scheme error is one fixed sentence.
   */
  function Message(e: Error): (m: string)
    ensures e.InvalidSequence? ==>
      |m| == 18 + |e.sequence| && m[..18] == "Invalid sequence: " && m[18..] == e.sequence
    ensures e.InvalidScheme? ==> m == "Invalid numbering scheme"
  {
    match e
    case InvalidSequence(s) => "Invalid sequence: " + s
    case InvalidScheme => "Invalid numbering scheme"
  }

  /** Different errors never print alike, so a message names its error. */
  lemma {:induction false} MessageInjective(e1: Error, e2: Error)
    ensures Message(e1) == Message(e2) <==> e1 == e2
  {
    if e1.InvalidSequence? && e2.InvalidSequence? {
      if Message(e1) == Message(e2) {
        assert e1.sequence == Message(e1)[18..] == Message(e2)[18..] == e2.sequence;
      }
    } else if e1.InvalidSequence? && e2.InvalidScheme? {
      assert Message(e1)[8] != Message(e2)[8];
    } else if e1.InvalidScheme? && e2.InvalidSequence? {
      assert Message(e1)[8] != Message(e2)[8];
    }
  }

  // ---------------------------------------------------------------------------
  // run_numbering
  // ---------------------------------------------------------------------------

  /** The cleaned sequence: outer whitespace stripped, then every gap `-` deleted; no gap is left and nothing is added. */
  function Clean(s: string): (r: string)
    ensures '-' !in r
    ensures |r| <= |s|
  {
    Remove(Strip(s), '-')
  }

  /**
   * Cleaning only deletes characters, and every character that is neither a gap
   * nor whitespace stays, as often as the input has it.
   */
  lemma {:induction false} CleanKeepsResidues(s: string)
    ensures multiset(Clean(s)) <= multiset(s)
    ensures forall c :: c != '-' && !IsSpace(c) ==> multiset(Clean(s))[c] == multiset(s)[c]
  {
    var t, i := Strip(s), LeadingSpaces(s);
    StripSpec(s);
    KeepsNonSpace(s, s[..i], t, s[i + |t|..]);
    RemoveCounts(t, '-');
  }

  /**
   * The strip happens before the gaps are removed, so cleaning twice can differ
   * from cleaning once: `"- A"` cleans to `" A"`, which cleans to `"A"`.
   */
  lemma {:induction false} CleanNotIdempotent(a: char)
    requires a != '-' && !IsSpace(a)
    ensures Clean(['-', ' ', a]) == [' ', a]
    ensures Clean(Clean(['-', ' ', a])) == [a]
    ensures Clean(Clean(['-', ' ', a])) != Clean(['-', ' ', a])
  {
    CleanGapFirst(a);
    CleanSpaceFirst(a);
  }

  /** The gap is removed only after stripping, which leaves the space behind it. */
  lemma {:induction false} CleanGapFirst(a: char)
    requires a != '-' && !IsSpace(a)
    ensures Clean(['-', ' ', a]) == [' ', a]
  {
    StripKeeps(['-', ' ', a]);
    RemoveLeadingGap(a);
  }

  lemma {:induction false} RemoveLeadingGap(a: char)
    requires a != '-'
    ensures Remove(['-', ' ', a], '-') == [' ', a]
  {
    var s := ['-', ' ', a];
    assert s[1..] == [' ', a];
    RemoveAbsent([' ', a], '-');
  }

  /** A second pass strips the space the first one left. */
  lemma {:induction false} CleanSpaceFirst(a: char)
    requires a != '-' && !IsSpace(a)
    ensures Clean([' ', a]) == [a]
  {
    assert LeadingSpaces([' ', a]) == 1 + LeadingSpaces([a]);
    assert LStrip([' ', a]) == [a];
    StripKeeps([a]);
    RemoveAbsent([a], '-');
  }

  /** An input already free of gaps and outer whitespace is passed on unchanged. */
  lemma {:induction false} CleanFixesCleanInput(s: string)
    requires '-' !in s
    requires s == [] || (!IsSpace(s[0]) && !IsSpace(s[|s| - 1]))
    ensures Clean(s) == s
  {
    StripKeeps(s);
    RemoveAbsent(s, '-');
  }

  /** The record name: the caller's name, else the chain, a `-`, then the scheme. */
  function DefaultName(name: Option<string>, chain: string, scheme: string): (r: string)
    ensures name.Some? ==> r == name.value
    ensures name.None? ==> |r| == |chain| + 1 + |scheme|
    ensures name.None? ==> r[..|chain|] == chain && r[|chain|] == '-' && r[|chain| + 1..] == scheme
  {
    if name.Some? then name.value else chain + "-" + scheme
  }

  /** Splits at the first occurrence of `c`; `(s, "")` when there is none. */
  function SplitFirst(s: string, c: char): (string, string)
  {
    if s == [] then ([], [])
    else if s[0] == c then ([], s[1..])
    else var (a, b) := SplitFirst(s[1..], c); ([s[0]] + a, b)
  }

  /**
   * A given name is kept; a built one is `chain` and `scheme` joined by one `-`,
   * and both are read back from it when the chain holds no `-`.
   */
  lemma {:induction false} DefaultNameParts(name: Option<string>, chain: string, scheme: string)
    ensures name.Some? ==> DefaultName(name, chain, scheme) == name.value
    ensures name.None? && '-' !in chain ==> SplitFirst(DefaultName(name, chain, scheme), '-') == (chain, scheme)
  {
    if name.None? && '-' !in chain {
      SplitAfterPrefix(chain, scheme);
    }
  }

  lemma {:induction false} SplitAfterPrefix(chain: string, scheme: string)
    requires '-' !in chain
    ensures SplitFirst(chain + "-" + scheme, '-') == (chain, scheme)
  {
    if chain == [] {
      assert chain + "-" + scheme == ['-'] + scheme;
    } else {
      assert (chain + "-" + scheme)[1..] == chain[1..] + "-" + scheme;
      SplitAfterPrefix(chain[1..], scheme);
      assert [chain[0]] + chain[1..] == chain;
    }
  }

  /** The chain letter as the engine's allow-list: `H` is `[H]`, `L` is kappa and lambda. */
  function ExpandChain(chain: string): (a: Allow)
    ensures chain == "H" ==> a == Letters(["H"])
    ensures chain == "L" ==> a == Letters(["K", "L"])
    ensures chain != "H" && chain != "L" ==> a == AsGiven(chain)
  {
    if chain == "H" then Letters(["H"])
    else if chain == "L" then Letters(["K", "L"])
    else AsGiven(chain)
  }

  /** No two chain values are handed to the engine as the same allow argument. */
  lemma {:induction false} ExpandChainInjective(c1: string, c2: string)
    requires ExpandChain(c1) == ExpandChain(c2)
    ensures c1 == c2
  {
  }

  /**
   * The request `run_numbering` sends to the engine: the gap-free cleaned
   * sequence, the given or default name, the scheme as given and the expanded
   * chain.
   */
  function Prepare(s: string, name: Option<string>, scheme: string, chain: string): (req: Request)
    ensures req.sequence == Clean(s)
    ensures '-' !in req.sequence && |req.sequence| <= |s| && req.scheme == scheme
    ensures name.Some? ==> req.name == name.value
    ensures name.None? ==> req.name == chain + "-" + scheme
    ensures chain == "H" ==> req.allow == Letters(["H"])
    ensures chain == "L" ==> req.allow == Letters(["K", "L"])
    ensures chain != "H" && chain != "L" ==> req.allow == AsGiven(chain)
  {
    Request(DefaultName(name, chain, scheme), Clean(s), scheme, ExpandChain(chain))
  }

  /**
   * `run_numbering`: the engine sees the cleaned sequence; its `None` becomes
   * `Invalid sequence: <cleaned>`, any other answer is returned as it is.
   */
  function RunNumbering(s: string, name: Option<string>, scheme: string, chain: string, engine: Numberer)
    : (r: Result<seq<Residue>, Error>)
    ensures r.Failure? <==> engine(Prepare(s, name, scheme, chain)).None?
    ensures r.Failure? ==> r.error == InvalidSequence(Clean(s))
    ensures r.Failure? ==> Message(r.error) == "Invalid sequence: " + Clean(s)
    ensures r.Success? ==> r.value == engine(Prepare(s, name, scheme, chain)).value
  {
    var req := Prepare(s, name, scheme, chain);
    match engine(req)
    case None => Failure(InvalidSequence(req.sequence))
    case Some(numbered) => Success(numbered)
  }

  // ---------------------------------------------------------------------------
  // get_numbered_seq
  // ---------------------------------------------------------------------------

  /** `''.join(aa for _, aa in numbered)`: one character per residue, in order. */
  function Sequence(rs: seq<Residue>): (s: string)
    ensures |s| == |rs|
  {
    if rs == [] then [] else Sequence(rs[..|rs| - 1]) + [rs[|rs| - 1].aa]
  }

  /** Character `i` of the joined string is the character of residue `i`. */
  lemma {:induction false} SequenceAt(rs: seq<Residue>)
    ensures forall i :: 0 <= i < |rs| ==> Sequence(rs)[i] == rs[i].aa
    decreases |rs|
  {
    if rs != [] {
      var init := rs[..|rs| - 1];
      SequenceAt(init);
      forall i | 0 <= i < |rs|
        ensures Sequence(rs)[i] == rs[i].aa
      {
        if i < |init| {
          assert Sequence(rs)[i] == Sequence(init)[i];
        }
      }
    }
  }

  /** `get_numbered_seq`: the residue characters, gaps included and insertion codes dropped. */
  function GetNumberedSeq(s: string, scheme: string, chain: string, engine: Numberer): (r: Result<string, Error>)
    ensures r.Failure? <==> engine(Prepare(s, None, scheme, chain)).None?
    ensures r.Failure? ==> r.error == InvalidSequence(Clean(s))
    ensures r.Success? ==> var rs := engine(Prepare(s, None, scheme, chain)).value;
      |r.value| == |rs| && forall i :: 0 <= i < |rs| ==> r.value[i] == rs[i].aa
  {
    match RunNumbering(s, None, scheme, chain, engine)
    case Failure(e) => Failure(e)
    case Success(numbered) => SequenceAt(numbered); Success(Sequence(numbered))
  }

  // ---------------------------------------------------------------------------
  // extract_regions: the breakpoint tables
  // ---------------------------------------------------------------------------

  /** A breakpoint `[lo, hi]` read half-open: `lo <= number < hi`. */
  datatype Interval = Interval(lo: int, hi: int) {
    predicate Contains(p: int) { lo <= p < hi }
  }

  type Table = seq<Interval>

  const RegionNames: seq<string> := ["fwr1", "cdr1", "fwr2", "cdr2", "fwr3", "cdr3", "fwr4"]

  /** IMGT unique numbering of the V domain. */
  const ImgtTable: Table :=
    [Interval(1, 27), Interval(27, 39), Interval(39, 56), Interval(56, 66),
     Interval(66, 105), Interval(105, 118), Interval(118, 129)]

  /** AHo numbering (Honegger and Plückthun); fwr4 stops one earlier on light chains. */
  function AhoTable(chain: string): (t: Table)
  {
    [Interval(1, 27), Interval(27, 41), Interval(41, 58), Interval(58, 69),
     Interval(69, 107), Interval(107, 139), Interval(139, if chain == "H" then 150 else 149)]
  }

  /**
   * The table chosen by `scheme.lower()`; `None` stands for `Invalid numbering
   * scheme`. A chosen table has the seven regions, starts at 1, and ends before
   * 129 (IMGT), 150 (AHo, heavy) or 149 (AHo, otherwise).
   */
  function SelectTable(scheme: string, chain: string): (t: Option<Table>)
    ensures t.Some? <==> Lower(scheme) == "imgt" || Lower(scheme) == "aho"
    ensures t.Some? ==> |t.value| == |RegionNames| && t.value[0].lo == 1
    ensures t.Some? ==>
      t.value[|t.value| - 1].hi == (if Lower(scheme) == "imgt" then 129 else if chain == "H" then 150 else 149)
  {
    var lowered := Lower(scheme);
    if lowered == "imgt" then Some(ImgtTable)
    else if lowered == "aho" then Some(AhoTable(chain))
    else None
  }

  /** A table is a non-empty run of back-to-back, non-empty half-open intervals. */
  predicate Contiguous(t: Table)
  {
    |t| > 0
    && (forall i :: 0 <= i < |t| ==> t[i].lo < t[i].hi)
    && (forall i :: 0 <= i < |t| - 1 ==> t[i].hi == t[i + 1].lo)
  }

  /**
   * Scheme names are matched without regard to case: exactly the spellings of
   * `imgt` and `aho` select a table, whatever the chain.
   */
  lemma {:induction false} SchemeAccepted(scheme: string, chain: string)
    ensures SelectTable(scheme, chain).Some? <==>
      (|scheme| == 4 && LowerChar(scheme[0]) == 'i' && LowerChar(scheme[1]) == 'm'
        && LowerChar(scheme[2]) == 'g' && LowerChar(scheme[3]) == 't')
      || (|scheme| == 3 && LowerChar(scheme[0]) == 'a' && LowerChar(scheme[1]) == 'h'
        && LowerChar(scheme[2]) == 'o')
  {
    LowerMatches(scheme, "imgt");
    LowerMatches(scheme, "aho");
  }

  lemma {:induction false} LowerMatches(s: string, w: string)
    ensures Lower(s) == w <==> |s| == |w| && forall i :: 0 <= i < |s| ==> LowerChar(s[i]) == w[i]
  {
    if |s| == |w| && forall i :: 0 <= i < |s| ==> LowerChar(s[i]) == w[i] {
      assert forall i :: 0 <= i < |s| ==> Lower(s)[i] == w[i];
    }
  }

  /** Both tables, for either chain, are contiguous; IMGT spans [1, 129), AHo [1, 150) or [1, 149). */
  lemma {:induction false} TablesContiguous(chain: string)
    ensures Contiguous(ImgtTable) && ImgtTable[0].lo == 1 && ImgtTable[6].hi == 129
    ensures Contiguous(AhoTable(chain)) && AhoTable(chain)[0].lo == 1
    ensures AhoTable(chain)[6].hi == if chain == "H" then 150 else 149
  {
  }

  // ---------------------------------------------------------------------------
  // extract_regions: bucketing
  // ---------------------------------------------------------------------------

  /**
   * The first region, in table order from index `k` on, whose half-open
   * interval holds position `p`; `None` when no interval does.
   */
  function RegionFrom(t: Table, p: int, k: nat): (r: Option<nat>)
    decreases |t| - k
    ensures r.Some? ==> k <= r.value < |t|
  {
    if k >= |t| then None
    else if t[k].Contains(p) then Some(k)
    else RegionFrom(t, p, k + 1)
  }

  /**
   * The search answers the first interval from `k` on that holds `p`, and
   * `None` exactly when none does.
   */
  lemma {:induction false} RegionFromSpec(t: Table, p: int, k: nat)
    decreases |t| - k
    ensures var r := RegionFrom(t, p, k);
      (r.Some? ==> k <= r.value < |t| && t[r.value].Contains(p))
      && (r.Some? ==> forall j :: k <= j < r.value ==> !t[j].Contains(p))
      && (r.None? ==> forall j :: k <= j < |t| ==> !t[j].Contains(p))
  {
    if k < |t| && !t[k].Contains(p) {
      RegionFromSpec(t, p, k + 1);
    }
  }

  /** The region of position `p`: the first one whose interval holds `p`, if any does. */
  function RegionOf(t: Table, p: int): (r: Option<nat>)
  {
    RegionFrom(t, p, 0)
  }

  /** In a contiguous table each interval ends no later than any later one starts. */
  lemma {:induction false} EndsBeforeLaterStart(t: Table, j: nat, i: nat)
    requires Contiguous(t) && j < i < |t|
    ensures t[j].hi <= t[i].lo
    decreases i - j
  {
    if j + 1 < i {
      EndsBeforeLaterStart(t, j + 1, i);
    }
  }

  /** In a contiguous table, `p` lands in region `i` exactly when `i`'s interval contains it. */
  lemma {:induction false} RegionExact(t: Table, p: int, i: nat)
    requires Contiguous(t)
    ensures RegionOf(t, p) == Some(i) <==> i < |t| && t[i].Contains(p)
  {
    RegionFromSpec(t, p, 0);
    var r := RegionOf(t, p);
    if i < |t| && t[i].Contains(p) {
      assert r.Some?;
      if r.value < i {
        EndsBeforeLaterStart(t, r.value, i);
      }
    }
  }

  lemma {:induction false} CoveredUpTo(t: Table, p: int, k: nat)
    requires Contiguous(t) && k < |t| && t[0].lo <= p < t[k].hi
    ensures exists i :: 0 <= i <= k && t[i].Contains(p)
  {
    if p < t[k].lo {
      assert k > 0;
      CoveredUpTo(t, p, k - 1);
    } else {
      assert t[k].Contains(p);
    }
  }

  lemma {:induction false} StartsNoEarlier(t: Table, i: nat)
    requires Contiguous(t) && i < |t|
    ensures t[0].lo <= t[i].lo && t[i].hi <= t[|t| - 1].hi
  {
    if i > 0 {
      EndsBeforeLaterStart(t, 0, i);
    }
    if i < |t| - 1 {
      EndsBeforeLaterStart(t, i, |t| - 1);
    }
  }

  /** A position is kept exactly when it lies in the span of a contiguous table. */
  lemma {:induction false} RegionCoverage(t: Table, p: int)
    requires Contiguous(t)
    ensures RegionOf(t, p).Some? <==> t[0].lo <= p < t[|t| - 1].hi
  {
    RegionFromSpec(t, p, 0);
    var r := RegionOf(t, p);
    if r.Some? {
      StartsNoEarlier(t, r.value);
    }
    if t[0].lo <= p < t[|t| - 1].hi {
      CoveredUpTo(t, p, |t| - 1);
    }
  }

  /** The kept positions per scheme: IMGT keeps [1, 129), AHo [1, 150) on heavy and [1, 149) on other chains. */
  lemma {:induction false} SchemeCoverage(chain: string, p: int)
    ensures RegionOf(ImgtTable, p).Some? <==> 1 <= p < 129
    ensures RegionOf(AhoTable(chain), p).Some? <==> 1 <= p < (if chain == "H" then 150 else 149)
  {
    TablesContiguous(chain);
    RegionCoverage(ImgtTable, p);
    RegionCoverage(AhoTable(chain), p);
  }

  /** Position 149 is the AHo heavy chain's last fwr4 position and is dropped on a light chain. */
  lemma {:induction false} AhoPosition149(chain: string)
    ensures RegionOf(AhoTable("H"), 149) == Some(6)
    ensures chain != "H" ==> RegionOf(AhoTable(chain), 149) == None
  {
    RegionExact(AhoTable("H"), 149, 6);
    if chain != "H" {
      RegionCoverage(AhoTable(chain), 149);
    }
  }

  /** In a contiguous table a later position never lands in an earlier region. */
  lemma {:induction false} RegionMonotone(t: Table, p: int, q: int)
    requires Contiguous(t) && p <= q && RegionOf(t, p).Some? && RegionOf(t, q).Some?
    ensures RegionOf(t, p).value <= RegionOf(t, q).value
  {
    RegionFromSpec(t, p, 0);
    RegionFromSpec(t, q, 0);
    var i, j := RegionOf(t, p).value, RegionOf(t, q).value;
    if j < i {
      EndsBeforeLaterStart(t, j, i);
    }
  }

  /** The characters, in order, of the residues whose position lands in region `i`. */
  function Bucket(rs: seq<Residue>, t: Table, i: nat): (b: string)
    ensures |b| <= |rs|
  {
    if rs == [] then []
    else
      var last := rs[|rs| - 1];
      Bucket(rs[..|rs| - 1], t, i) + (if RegionOf(t, last.position) == Some(i) then [last.aa] else [])
  }

  /** The first `k` buckets, in table order. */
  function Concat(rs: seq<Residue>, t: Table, k: nat): string
  {
    if k == 0 then [] else Concat(rs, t, k - 1) + Bucket(rs, t, k - 1)
  }

  /** How many residues land in some region of the table. */
  function InRangeCount(rs: seq<Residue>, t: Table): nat
  {
    if rs == [] then 0
    else InRangeCount(rs[..|rs| - 1], t) + (if RegionOf(t, rs[|rs| - 1].position).Some? then 1 else 0)
  }

  /** `rs` numbered in non-decreasing position order. */
  predicate PositionsSorted(rs: seq<Residue>)
  {
    forall a, b :: 0 <= a < b < |rs| ==> rs[a].position <= rs[b].position
  }

  /** The region a residue lands in, with residues outside every region ranked last. */
  function Rank(t: Table, x: Residue): nat
  {
    match RegionOf(t, x.position)
    case Some(i) => i
    case None => |t|
  }

  /**
   * Read from the back, every residue lands in a region below the bound, and
   * that region bounds the residues before it: the regions of `rs` never go
   * backwards and all lie below `k`.
   */
  predicate Ordered(rs: seq<Residue>, t: Table, k: nat)
    decreases |rs|
  {
    rs == [] ||
      var r := RegionOf(t, rs[|rs| - 1].position);
      r.Some? && r.value < k && Ordered(rs[..|rs| - 1], t, r.value + 1)
  }

  /** An ordered sequence whose residues all land in the first `k` regions leaves bucket `k` and beyond empty. */
  lemma {:induction false} BucketEmpty(rs: seq<Residue>, t: Table, i: nat)
    requires Ordered(rs, t, i)
    ensures Bucket(rs, t, i) == []
    decreases |rs|
  {
    if rs != [] {
      BucketEmpty(rs[..|rs| - 1], t, i);
    }
  }

  /** Appending a residue changes only the bucket of the region it lands in. */
  lemma {:induction false} BucketStep(rs: seq<Residue>, x: Residue, t: Table, i: nat)
    ensures Bucket(rs + [x], t, i) ==
      Bucket(rs, t, i) + (if RegionOf(t, x.position) == Some(i) then [x.aa] else [])
  {
    assert (rs + [x])[..|rs + [x]| - 1] == rs;
  }

  /** Buckets before the one a new last residue lands in are unaffected by it. */
  lemma {:induction false} ConcatBefore(rs: seq<Residue>, x: Residue, t: Table, k: nat)
    requires RegionOf(t, x.position).Some? && k <= RegionOf(t, x.position).value
    ensures Concat(rs + [x], t, k) == Concat(rs, t, k)
  {
    if k > 0 {
      ConcatBefore(rs, x, t, k - 1);
      BucketStep(rs, x, t, k - 1);
    }
  }

  /** Buckets from `j` on are empty when every residue lands before `j`. */
  lemma {:induction false} ConcatEmptyTail(rs: seq<Residue>, t: Table, j: nat, k: nat)
    requires j <= k && Ordered(rs, t, j)
    ensures Concat(rs, t, k) == Concat(rs, t, j)
  {
    forall i | j <= i < k
      ensures Bucket(rs, t, i) == []
    {
      BucketEmpty(rs, t, i);
    }
    ConcatOfEmpties(rs, t, j, k);
  }

  lemma {:induction false} ConcatOfEmpties(rs: seq<Residue>, t: Table, j: nat, k: nat)
    requires j <= k && forall i :: j <= i < k ==> Bucket(rs, t, i) == []
    ensures Concat(rs, t, k) == Concat(rs, t, j)
    decreases k
  {
    if j < k {
      ConcatOfEmpties(rs, t, j, k - 1);
      assert Bucket(rs, t, k - 1) == [];
    }
  }

  /** With nothing numbered, every bucket is empty. */
  lemma {:induction false} ConcatOfNothing(t: Table, k: nat)
    ensures Concat([], t, k) == []
  {
    if k > 0 {
      ConcatOfNothing(t, k - 1);
    }
  }

  /**
   * When every residue lands in one of the first `k` regions and the regions
   * never go backwards along `rs`, the first `k` buckets in order spell out `rs`.
   */
  lemma {:induction false} ConcatSpellsSequence(rs: seq<Residue>, t: Table, k: nat)
    requires Ordered(rs, t, k)
    ensures Concat(rs, t, k) == Sequence(rs)
    decreases |rs|
  {
    if rs == [] {
      ConcatOfNothing(t, k);
    } else {
      var init := rs[..|rs| - 1];
      var j := OrderedLast(rs, t, k);
      ConcatSpellsSequence(init, t, j + 1);
      ConcatEmptyTail(rs, t, j + 1, k);
      ConcatStep(rs, t, j);
      SpellLast(rs, t, j, k);
    }
  }

  /** Chains the three facts of one step of `ConcatSpellsSequence`. */
  lemma {:induction false} SpellLast(rs: seq<Residue>, t: Table, j: nat, k: nat)
    requires rs != []
    requires Concat(rs[..|rs| - 1], t, j + 1) == Sequence(rs[..|rs| - 1])
    requires Concat(rs, t, k) == Concat(rs, t, j + 1)
    requires Concat(rs, t, j + 1) == Concat(rs[..|rs| - 1], t, j + 1) + [rs[|rs| - 1].aa]
    ensures Concat(rs, t, k) == Sequence(rs)
  {
  }

  /** The region of the last residue of an ordered `rs` bounds all of `rs`. */
  lemma {:induction false} OrderedLast(rs: seq<Residue>, t: Table, k: nat) returns (j: nat)
    requires rs != [] && Ordered(rs, t, k)
    ensures RegionOf(t, rs[|rs| - 1].position) == Some(j) && j < k
    ensures Ordered(rs, t, j + 1) && Ordered(rs[..|rs| - 1], t, j + 1)
  {
    j := RegionOf(t, rs[|rs| - 1].position).value;
  }

  /** A non-empty sequence is its front followed by its last element. */
  lemma {:induction false} SplitLast<T>(s: seq<T>)
    requires s != []
    ensures s == s[..|s| - 1] + [s[|s| - 1]]
  {
  }

  /** Residues that all land in regions, in a non-decreasing order of regions, are `Ordered`. */
  lemma {:induction false} OrderedByRank(rs: seq<Residue>, t: Table, k: nat)
    requires forall a :: 0 <= a < |rs| ==> Rank(t, rs[a]) < k
    requires forall a, b :: 0 <= a < b < |rs| ==> Rank(t, rs[a]) <= Rank(t, rs[b])
    requires k <= |t|
    ensures Ordered(rs, t, k)
    decreases |rs|
  {
    if rs != [] {
      var init := rs[..|rs| - 1];
      var j := Rank(t, rs[|rs| - 1]);
      forall a | 0 <= a < |init|
        ensures Rank(t, init[a]) < j + 1
      {
        assert Rank(t, rs[a]) <= Rank(t, rs[|rs| - 1]);
      }
      forall a, b | 0 <= a < b < |init|
        ensures Rank(t, init[a]) <= Rank(t, init[b])
      {
        assert Rank(t, rs[a]) <= Rank(t, rs[b]);
      }
      OrderedByRank(init, t, j + 1);
    }
  }

  /** Appending a residue of region `j` appends its character to the first `j + 1` buckets. */
  lemma {:induction false} ConcatStep(rs: seq<Residue>, t: Table, j: nat)
    requires rs != [] && RegionOf(t, rs[|rs| - 1].position) == Some(j)
    ensures Concat(rs, t, j + 1) == Concat(rs[..|rs| - 1], t, j + 1) + [rs[|rs| - 1].aa]
  {
    var init, x := rs[..|rs| - 1], rs[|rs| - 1];
    SplitLast(rs);
    ConcatBefore(init, x, t, j);
    BucketStep(init, x, t, j);
  }

  /**
   * For a contiguous table and a numbering in position order that stays inside
   * the table's span, the regions in order fwr1 .. fwr4 spell out the whole
   * numbered sequence.
   */
  lemma {:induction false} RegionsReassemble(rs: seq<Residue>, t: Table)
    requires Contiguous(t) && PositionsSorted(rs)
    requires forall a :: 0 <= a < |rs| ==> t[0].lo <= rs[a].position < t[|t| - 1].hi
    ensures Concat(rs, t, |t|) == Sequence(rs)
  {
    forall a | 0 <= a < |rs|
      ensures Rank(t, rs[a]) < |t|
    {
      RegionCoverage(t, rs[a].position);
    }
    forall a, b | 0 <= a < b < |rs|
      ensures Rank(t, rs[a]) <= Rank(t, rs[b])
    {
      RegionCoverage(t, rs[a].position);
      RegionCoverage(t, rs[b].position);
      RegionMonotone(t, rs[a].position, rs[b].position);
    }
    OrderedByRank(rs, t, |t|);
    ConcatSpellsSequence(rs, t, |t|);
  }

  lemma {:induction false} ConcatLengthStep(rs: seq<Residue>, x: Residue, t: Table, k: nat)
    ensures |Concat(rs + [x], t, k)| == |Concat(rs, t, k)|
      + (if RegionOf(t, x.position).Some? && RegionOf(t, x.position).value < k then 1 else 0)
  {
    if k > 0 {
      ConcatLengthStep(rs, x, t, k - 1);
      BucketStep(rs, x, t, k - 1);
    }
  }

  /** Every kept residue contributes exactly one character across all the buckets. */
  lemma {:induction false} BucketsTotalLength(rs: seq<Residue>, t: Table)
    ensures |Concat(rs, t, |t|)| == InRangeCount(rs, t)
  {
    if rs == [] {
      ConcatOfNothing(t, |t|);
    } else {
      var init, x := rs[..|rs| - 1], rs[|rs| - 1];
      assert rs == init + [x];
      BucketsTotalLength(init, t);
      ConcatLengthStep(init, x, t, |t|);
    }
  }

  /**
   * Residues that all share one position, whatever their insertion codes, all
   * go to that position's region, one character each and in order.
   */
  lemma {:induction false} SamePositionBucket(rs: seq<Residue>, p: int, t: Table, i: nat)
    requires forall a :: 0 <= a < |rs| ==> rs[a].position == p
    requires RegionOf(t, p) == Some(i)
    ensures Bucket(rs, t, i) == Sequence(rs)
    decreases |rs|
  {
    if rs != [] {
      var init := rs[..|rs| - 1];
      assert forall a :: 0 <= a < |init| ==> init[a].position == p by {
        forall a | 0 <= a < |init|
          ensures init[a].position == p
        {
          assert init[a] == rs[a];
        }
      }
      SamePositionBucket(init, p, t, i);
    }
  }

  /**
   * So a region string can be longer than its interval is wide: thirteen
   * residues at IMGT position 27 with insertion codes `A` to `M` give cdr1,
   * which spans twelve positions, thirteen characters.
   */
  lemma {:induction false} RegionLongerThanInterval()
    ensures var rs := seq(13, k requires 0 <= k < 13 => Residue(27, (65 + k) as char, 'G'));
      |Bucket(rs, ImgtTable, 1)| == 13 > ImgtTable[1].hi - ImgtTable[1].lo
  {
    var rs := seq(13, k requires 0 <= k < 13 => Residue(27, (65 + k) as char, 'G'));
    assert RegionOf(ImgtTable, 27) == Some(1);
    SamePositionBucket(rs, 27, ImgtTable, 1);
  }

  // ---------------------------------------------------------------------------
  // extract_regions
  // ---------------------------------------------------------------------------

  /** `'vh'` for the heavy chain, `'vl'` for anything else. */
  function Prefix(chain: string): (p: string)
    ensures |p| == 2 && p[0] == 'v'
    ensures p == "vh" <==> chain == "H"
    ensures chain != "H" ==> p == "vl"
  {
    if chain == "H" then "vh" else "vl"
  }

  /** The key of region `i`: the prefix, one underscore, the region name. */
  function Key(prefix: string, i: nat): (k: string)
    requires i < |RegionNames|
    ensures |k| == |prefix| + 1 + |RegionNames[i]|
    ensures k[..|prefix|] == prefix && k[|prefix|] == '_' && k[|prefix| + 1..] == RegionNames[i]
  {
    prefix + "_" + RegionNames[i]
  }

  /** The seven keys are pairwise different. */
  lemma {:induction false} KeyInjective(prefix: string, i: nat, j: nat)
    requires i < |RegionNames| && j < |RegionNames|
    requires Key(prefix, i) == Key(prefix, j)
    ensures i == j
  {
    assert Key(prefix, i)[|prefix| + 1..] == RegionNames[i];
    assert Key(prefix, j)[|prefix| + 1..] == RegionNames[j];
  }

  function KeySet(prefix: string): set<string>
  {
    set i | 0 <= i < |RegionNames| :: Key(prefix, i)
  }

  /**
   * `extract_regions`: number the sequence (its error comes first), choose the
   * table, then walk the residues once, appending each character to the first
   * region whose half-open interval holds its position. The answer has the seven
   * prefixed keys and each value is that region's bucket.
   */
  method ExtractRegions(s: string, scheme: string, chain: string, engine: Numberer)
    returns (r: Result<map<string, string>, Error>)
    ensures engine(Prepare(s, None, scheme, chain)).None? ==> r == Failure(InvalidSequence(Clean(s)))
    ensures engine(Prepare(s, None, scheme, chain)).Some? && SelectTable(scheme, chain).None? ==>
      r == Failure(InvalidScheme)
    ensures engine(Prepare(s, None, scheme, chain)).Some? && SelectTable(scheme, chain).Some? ==>
      r.Success? && r.value.Keys == KeySet(Prefix(chain))
      && forall i :: 0 <= i < |RegionNames| ==>
        r.value[Key(Prefix(chain), i)]
          == Bucket(engine(Prepare(s, None, scheme, chain)).value, SelectTable(scheme, chain).value, i)
  {
    var result := RunNumbering(s, None, scheme, chain, engine);
    if result.Failure? {
      return Failure(result.error);
    }
    var table: Table;
    var lowered := Lower(scheme);
    if lowered == "imgt" {
      table := ImgtTable;
    } else if lowered == "aho" {
      table := AhoTable(chain);
    } else {
      return Failure(InvalidScheme);
    }
    var regions := FillRegions(result.value, table, Prefix(chain));
    return Success(regions);
  }

  /** The starting regions: every prefixed key, each mapped to the empty string. */
  function EmptyRegions(prefix: string): (m: map<string, string>)
    ensures m.Keys == KeySet(prefix)
    ensures forall i :: 0 <= i < |RegionNames| ==> m[Key(prefix, i)] == ""
  {
    map i | 0 <= i < |RegionNames| :: Key(prefix, i) := ""
  }

  /** Every prefixed region holds exactly its bucket of `seen`. */
  predicate Filled(regions: map<string, string>, seen: seq<Residue>, table: Table, prefix: string)
  {
    && regions.Keys == KeySet(prefix)
    && forall i :: 0 <= i < |RegionNames| ==> regions[Key(prefix, i)] == Bucket(seen, table, i)
  }

  /** Taking one more element extends the prefix by that element. */
  lemma {:induction false} PrefixStep(xs: seq<Residue>, n: nat)
    requires n < |xs|
    ensures xs[..n + 1] == xs[..n] + [xs[n]]
  {
  }

  /** One turn of the loop keeps every region equal to its bucket of the residues seen so far. */
  lemma {:induction false} FillStep(regions: map<string, string>, next: map<string, string>, seen: seq<Residue>, x: Residue,
                 after: seq<Residue>, table: Table, prefix: string)
    requires |table| == |RegionNames|
    requires after == seen + [x]
    requires Filled(regions, seen, table, prefix)
    requires var region := RegionOf(table, x.position);
      next == if region.Some?
        then regions[Key(prefix, region.value) := regions[Key(prefix, region.value)] + [x.aa]]
        else regions
    ensures Filled(next, after, table, prefix)
  {
    var region := RegionOf(table, x.position);
    forall i | 0 <= i < |RegionNames|
      ensures next[Key(prefix, i)] == Bucket(after, table, i)
    {
      BucketStep(seen, x, table, i);
      if region.Some? && Key(prefix, i) == Key(prefix, region.value) {
        KeyInjective(prefix, i, region.value);
      }
    }
  }

  /**
   * The loop of `extract_regions`: start every prefixed key at `""`, then append
   * each residue's character to the first region whose interval holds its position.
   */
  method FillRegions(numbered: seq<Residue>, table: Table, prefix: string) returns (regions: map<string, string>)
    requires |table| == |RegionNames|
    ensures regions.Keys == KeySet(prefix)
    ensures forall i :: 0 <= i < |RegionNames| ==> regions[Key(prefix, i)] == Bucket(numbered, table, i)
  {
    regions := EmptyRegions(prefix);
    var n := 0;
    assert numbered[..n] == [];
    while n < |numbered|
      invariant 0 <= n <= |numbered|
      invariant Filled(regions, numbered[..n], table, prefix)
    {
      var residue := numbered[n];
      var region := RegionOf(table, residue.position);
      var next := regions;
      if region.Some? {
        var key := Key(prefix, region.value);
        next := regions[key := regions[key] + [residue.aa]];
      }
      ghost var seen := numbered[..n];
      ghost var after := numbered[..n + 1];
      PrefixStep(numbered, n);
      FillStep(regions, next, seen, residue, after, table, prefix);
      regions := next;
      n := n + 1;
      assert after == numbered[..n];
    }
    assert numbered[..n] == numbered;
  }

  /**
   * When the engine numbers in position order inside the table's span, the
   * region strings of `extract_regions`, read fwr1 .. fwr4, are exactly
   * `get_numbered_seq`'s string.
   */
  lemma {:induction false} RegionsRejoinNumberedSeq(s: string, scheme: string, chain: string, engine: Numberer)
    requires engine(Prepare(s, None, scheme, chain)).Some?
    requires SelectTable(scheme, chain).Some?
    requires PositionsSorted(engine(Prepare(s, None, scheme, chain)).value)
    requires var t := SelectTable(scheme, chain).value;
      var rs := engine(Prepare(s, None, scheme, chain)).value;
      forall a :: 0 <= a < |rs| ==> t[0].lo <= rs[a].position < t[6].hi
    ensures var t := SelectTable(scheme, chain).value;
      GetNumberedSeq(s, scheme, chain, engine) == Success(Concat(engine(Prepare(s, None, scheme, chain)).value, t, 7))
  {
    var rs := engine(Prepare(s, None, scheme, chain)).value;
    var t := SelectTable(scheme, chain).value;
    TablesContiguous(chain);
    RegionsReassemble(rs, t);
  }
}
