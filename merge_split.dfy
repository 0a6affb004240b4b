/**
 * The body of `main` in merge_split_bam, after the arguments are parsed:
 * take the header of input 0 as the master, load every input into one
 * bucket per reference, count and rank the non-empty references, deal them
 * round robin to the outputs, then write each output's references one after
 * another, each sorted by position.
 *
 * Files are a map from path to what the library would read from it; a path
 * missing from the map is one `sam_open` cannot open. Output paths that
 * cannot be opened are given as a set. The parallel loop over outputs is a
 * sequential loop: each iteration touches only its own references.
 */
module MergeSplit {
  import opened Common
  import opened Sorting
  import opened MergeSplitArgs
  import opened MergeSplitSpec

  /** An input file: its header (None when it cannot be read) and its records up to end of file. */
  datatype BamFile = BamFile(header: Option<Header>, records: seq<Rec>)

  /** One output file as written: its path, its header and its records in write order. */
  datatype Sink = Sink(path: string, header: Header, records: seq<Rec>)

  /** The conditions under which `main` calls `die`. */
  datatype Fatal =
    | OpenFailed(path: string)
    | HeaderReadFailed(path: string)
    | IncompatibleHeaders(path: string)
    | OutputOpenFailed(path: string)

  /**
   * What a successful run leaves behind: the ranked statistics, the
   * reference ids of each output, the per-reference records after the write
   * phase, and the output files.
   */
  datatype Outcome = Outcome(stats: seq<ChrStat>, bucketChrs: seq<seq<int>>, chromosomes: seq<seq<Rec>>, sinks: seq<Sink>)

  // ------------------------------------------------------------------
  // Specification of the input phase

  /** Input 0 opens and has a header. */
  predicate MasterReadable(files: map<string, BamFile>, prefix: string) {
    InputPath(prefix, 0) in files && files[InputPath(prefix, 0)].header.Some?
  }

  function Master(files: map<string, BamFile>, prefix: string): Header
    requires MasterReadable(files, prefix)
  {
    files[InputPath(prefix, 0)].header.value
  }

  /** Why the input at `path` cannot be loaded against the master header; None if it can. */
  function InputError(files: map<string, BamFile>, master: Header, path: string): (e: Option<Fatal>)
    ensures e.None? <==> path in files && files[path].header.Some? && files[path].header.value == master
  {
    SameDictionaryIsEquality(master, if path in files && files[path].header.Some? then files[path].header.value else master);
    if path !in files then Some(OpenFailed(path))
    else if files[path].header.None? then Some(HeaderReadFailed(path))
    else if !SameDictionary(master, files[path].header.value) then Some(IncompatibleHeaders(path))
    else None
  }

  predicate InputsPresent(files: map<string, BamFile>, prefix: string, k: nat) {
    forall i :: 0 <= i < k ==> InputPath(prefix, i) in files
  }

  /** Every input opens, has a header, and that header matches the master's. */
  predicate InputsLoadable(files: map<string, BamFile>, prefix: string, inputNum: nat) {
    && MasterReadable(files, prefix)
    && InputsPresent(files, prefix, inputNum)
    && forall i :: 0 <= i < inputNum ==> InputError(files, Master(files, prefix), InputPath(prefix, i)).None?
  }

  /** Input `k` is the first one that cannot be loaded. */
  predicate FirstInputError(files: map<string, BamFile>, master: Header, prefix: string, k: nat, inputNum: nat) {
    && k < inputNum
    && InputError(files, master, InputPath(prefix, k)).Some?
    && forall i :: 0 <= i < k ==> InputError(files, master, InputPath(prefix, i)).None?
  }

  /** The records of inputs 0 .. k-1, in reading order. */
  function AllRecords(files: map<string, BamFile>, prefix: string, k: nat): seq<Rec>
    requires InputsPresent(files, prefix, k)
  {
    if k == 0 then [] else AllRecords(files, prefix, k - 1) + files[InputPath(prefix, k - 1)].records
  }

  /** Output `b` is the first whose path cannot be opened. */
  predicate FirstUnopenable(unopenable: set<string>, prefix: string, format: Format, b: nat, outputNum: nat) {
    && b < outputNum
    && OutputPath(prefix, b, format) in unopenable
    && forall c :: 0 <= c < b ==> OutputPath(prefix, c, format) !in unopenable
  }

  // ------------------------------------------------------------------
  // The operations

  /** `headers_compatible`: same number of references, same names, same lengths. */
  method HeadersCompatible(a: Header, b: Header) returns (ok: bool)
    ensures ok <==> a == b
  {
    SameDictionaryIsEquality(a, b);
    if |a| != |b| {
      return false;
    }
    var i := 0;
    while i < |a|
      invariant 0 <= i <= |a|
      invariant forall k :: 0 <= k < i ==> a[k].name == b[k].name && a[k].length == b[k].length
    {
      if a[i].name != b[i].name {
        return false;
      }
      if a[i].length != b[i].length {
        return false;
      }
      i := i + 1;
    }
    return true;
  }

  /**
   * The `sam_read1` loop of one input: every record with a reference id
   * in range is appended to that reference's bucket; the others are skipped.
   */
  method LoadRecords(chrVec: array<seq<Rec>>, recs: seq<Rec>)
    modifies chrVec
    ensures forall t :: 0 <= t < chrVec.Length ==> chrVec[t] == old(chrVec[t]) + Bucket(recs, t)
  {
    var j := 0;
    while j < |recs|
      invariant 0 <= j <= |recs|
      invariant forall t :: 0 <= t < chrVec.Length ==> chrVec[t] == old(chrVec[t]) + Bucket(recs[..j], t)
    {
      var r := recs[j];
      assert Init(recs[..j + 1]) == recs[..j] && Last(recs[..j + 1]) == r;
      if 0 <= r.tid < chrVec.Length {
        chrVec[r.tid] := chrVec[r.tid] + [r];
      }
      j := j + 1;
    }
    assert recs[..j] == recs;
  }

  /**
   * The loop over inputs 0 .. inputNum-1: each must open, have a header and
   * match the master header; the first that does not is fatal. On success
   * the buckets hold every input's records in reading order.
   */
  method LoadInputs(chrVec: array<seq<Rec>>, files: map<string, BamFile>, prefix: string, inputNum: nat)
    returns (err: Option<Fatal>)
    requires MasterReadable(files, prefix) && chrVec.Length == |Master(files, prefix)|
    requires forall t :: 0 <= t < chrVec.Length ==> chrVec[t] == []
    modifies chrVec
    ensures err.None? <==> InputsLoadable(files, prefix, inputNum)
    ensures err.Some? ==> exists k ::
      FirstInputError(files, Master(files, prefix), prefix, k, inputNum) &&
      err == InputError(files, Master(files, prefix), InputPath(prefix, k))
    ensures err.None? ==> chrVec[..] == Buckets(AllRecords(files, prefix, inputNum), chrVec.Length)
  {
    var master := Master(files, prefix);
    var i := 0;
    while i < inputNum
      invariant 0 <= i <= inputNum
      invariant forall k :: 0 <= k < i ==> InputError(files, master, InputPath(prefix, k)).None?
      invariant InputsPresent(files, prefix, i)
      invariant forall t :: 0 <= t < chrVec.Length ==> chrVec[t] == Bucket(AllRecords(files, prefix, i), t)
    {
      var path := InputPath(prefix, i);
      if path !in files {
        assert FirstInputError(files, master, prefix, i, inputNum);
        return Some(OpenFailed(path));
      }
      var file := files[path];
      if file.header.None? {
        assert FirstInputError(files, master, prefix, i, inputNum);
        return Some(HeaderReadFailed(path));
      }
      var compatible := HeadersCompatible(master, file.header.value);
      if !compatible {
        assert FirstInputError(files, master, prefix, i, inputNum);
        return Some(IncompatibleHeaders(path));
      }
      LoadRecords(chrVec, file.records);
      forall t | 0 <= t < chrVec.Length
        ensures chrVec[t] == Bucket(AllRecords(files, prefix, i + 1), t)
      {
        BucketAppend(AllRecords(files, prefix, i), file.records, t);
      }
      i := i + 1;
    }
    assert chrVec[..] == Buckets(AllRecords(files, prefix, inputNum), chrVec.Length);
    return None;
  }

  /** The `chr_stats` build: one entry per non-empty reference, in ascending id order. */
  method CollectStats(chrVec: array<seq<Rec>>) returns (stats: seq<ChrStat>)
    ensures StatsFor(chrVec[..], stats)
    ensures forall i, j :: 0 <= i < j < |stats| ==> stats[i].tid < stats[j].tid
  {
    stats := [];
    var tid := 0;
    while tid < chrVec.Length
      invariant 0 <= tid <= chrVec.Length
      invariant forall k :: 0 <= k < |stats| ==> 0 <= stats[k].tid < tid && stats[k].readCount == |chrVec[stats[k].tid]| > 0
      invariant forall t :: 0 <= t < tid && chrVec[t] != [] ==> t in TidsOf(stats)
      invariant forall i, j :: 0 <= i < j < |stats| ==> stats[i].tid < stats[j].tid
    {
      if chrVec[tid] != [] {
        assert TidsOf(stats + [ChrStat(tid, |chrVec[tid]|)]) == TidsOf(stats) + [tid];
        stats := stats + [ChrStat(tid, |chrVec[tid]|)];
      }
      tid := tid + 1;
    }
  }

  /** The sort key that puts more reads first. */
  function ReadsDescending(s: ChrStat): int {
    -(s.readCount as int)
  }

  /** `sort(chr_stats, a.reads > b.reads)`: a permutation ranked by read count, ties in no set order. */
  method RankStats(stats: seq<ChrStat>) returns (ranked: seq<ChrStat>)
    ensures multiset(ranked) == multiset(stats)
    ensures ReadsNonIncreasing(ranked)
  {
    var a := new ChrStat[|stats|](i requires 0 <= i < |stats| => stats[i]);
    assert a[..] == stats;
    SortBy(a, ReadsDescending);
    ranked := a[..];
  }

  /** `bucket_chrs`: the i-th ranked reference goes to output `i % outputNum`. */
  method Deal(stats: seq<ChrStat>, outputNum: nat) returns (bucketChrs: seq<seq<int>>)
    requires outputNum > 0
    ensures |bucketChrs| == outputNum
    ensures forall b :: 0 <= b < outputNum ==> bucketChrs[b] == Dealt(TidsOf(stats), outputNum, b)
  {
    var tids := TidsOf(stats);
    var buckets := new seq<int>[outputNum](_ => []);
    var i := 0;
    while i < |stats|
      invariant 0 <= i <= |stats|
      invariant forall b :: 0 <= b < outputNum ==> buckets[b] == Dealt(tids[..i], outputNum, b)
    {
      var b := i % outputNum;
      assert Init(tids[..i + 1]) == tids[..i] && Last(tids[..i + 1]) == stats[i].tid;
      buckets[b] := buckets[b] + [stats[i].tid];
      i := i + 1;
    }
    assert tids[..i] == tids;
    bucketChrs := buckets[..];
  }

  /** The key of `Rec::operator<`: the leftmost position. */
  function PositionKey(r: Rec): int {
    r.pos
  }

  /** `sort(vec.begin(), vec.end())` on one reference: by position, ties in no set order. */
  method SortRecords(recs: seq<Rec>) returns (sorted: seq<Rec>)
    ensures multiset(sorted) == multiset(recs)
    ensures SortedByPos(sorted)
  {
    var a := new Rec[|recs|](i requires 0 <= i < |recs| => recs[i]);
    assert a[..] == recs;
    SortBy(a, PositionKey);
    sorted := a[..];
  }

  /** The output paths, opened in order; the first that cannot be opened is fatal. */
  method OpenOutputs(prefix: string, outputNum: nat, format: Format, unopenable: set<string>)
    returns (err: Option<Fatal>)
    ensures err.None? <==> forall b :: 0 <= b < outputNum ==> OutputPath(prefix, b, format) !in unopenable
    ensures err.Some? ==> exists b ::
      FirstUnopenable(unopenable, prefix, format, b, outputNum) && err == Some(OutputOpenFailed(OutputPath(prefix, b, format)))
  {
    var b := 0;
    while b < outputNum
      invariant 0 <= b <= outputNum
      invariant forall c :: 0 <= c < b ==> OutputPath(prefix, c, format) !in unopenable
    {
      var path := OutputPath(prefix, b, format);
      if path in unopenable {
        assert FirstUnopenable(unopenable, prefix, format, b, outputNum);
        return Some(OutputOpenFailed(path));
      }
      b := b + 1;
    }
    return None;
  }

  /**
   * One iteration of the parallel loop: for each of the output's references
   * in turn, sort its bucket in place by position and write it out.
   */
  method WriteOutput(chrVec: array<seq<Rec>>, tids: seq<int>) returns (out: seq<Rec>)
    requires ValidTids(tids, chrVec.Length) && Distinct(tids)
    modifies chrVec
    ensures out == Gather(chrVec[..], tids)
    ensures forall t :: 0 <= t < chrVec.Length ==> multiset(chrVec[t]) == multiset(old(chrVec[t]))
    ensures forall k :: 0 <= k < |tids| ==> SortedByPos(chrVec[tids[k]])
    ensures forall t :: 0 <= t < chrVec.Length && t !in tids ==> chrVec[t] == old(chrVec[t])
  {
    out := [];
    var k := 0;
    while k < |tids|
      invariant 0 <= k <= |tids|
      invariant out == Gather(chrVec[..], tids[..k])
      invariant forall t :: 0 <= t < chrVec.Length ==> multiset(chrVec[t]) == multiset(old(chrVec[t]))
      invariant forall m :: 0 <= m < k ==> SortedByPos(chrVec[tids[m]])
      invariant forall t :: 0 <= t < chrVec.Length && (forall m :: 0 <= m < k ==> tids[m] != t) ==> chrVec[t] == old(chrVec[t])
    {
      var tid := tids[k];
      ghost var before := chrVec[..];
      var sorted := SortRecords(chrVec[tid]);
      chrVec[tid] := sorted;
      GatherFrame(before, chrVec[..], tids[..k]);
      assert Init(tids[..k + 1]) == tids[..k] && Last(tids[..k + 1]) == tid;
      out := out + chrVec[tid];
      k := k + 1;
    }
    assert tids[..k] == tids;
    forall t | 0 <= t < chrVec.Length && t !in tids
      ensures chrVec[t] == old(chrVec[t])
    {
      assert forall m :: 0 <= m < |tids| ==> tids[m] in tids;
    }
  }

  /** An output lists no id twice. */
  lemma DisjointWithin(bucketChrs: seq<seq<int>>, b: nat)
    requires DisjointAssignment(bucketChrs) && b < |bucketChrs|
    ensures Distinct(bucketChrs[b])
  {
    forall i, j | 0 <= i < j < |bucketChrs[b]|
      ensures bucketChrs[b][i] != bucketChrs[b][j]
    {
    }
  }

  /** An id listed by output `c` is not listed by another output `b`. */
  lemma DisjointAcross(bucketChrs: seq<seq<int>>, b: nat, c: nat, k: nat)
    requires DisjointAssignment(bucketChrs) && b < |bucketChrs| && c < |bucketChrs| && b != c
    requires k < |bucketChrs[c]|
    ensures bucketChrs[c][k] !in bucketChrs[b]
  {
    forall j | 0 <= j < |bucketChrs[b]|
      ensures bucketChrs[b][j] != bucketChrs[c][k]
    {
    }
  }

  /**
   * Writing output `b` touches only the buckets it lists, so the buckets of
   * the outputs before it, and their concatenations, stay as they were.
   */
  lemma OthersUnaffected(before: seq<seq<Rec>>, after: seq<seq<Rec>>, bucketChrs: seq<seq<int>>, b: nat)
    requires b < |bucketChrs| && DisjointAssignment(bucketChrs)
    requires |before| == |after|
    requires forall c :: 0 <= c < |bucketChrs| ==> ValidTids(bucketChrs[c], |after|)
    requires forall t :: 0 <= t < |before| && t !in bucketChrs[b] ==> after[t] == before[t]
    ensures forall c, k :: 0 <= c < b && 0 <= k < |bucketChrs[c]| ==> bucketChrs[c][k] !in bucketChrs[b]
    ensures forall c :: 0 <= c < b ==> Gather(after, bucketChrs[c]) == Gather(before, bucketChrs[c])
  {
    forall c, k | 0 <= c < b && 0 <= k < |bucketChrs[c]|
      ensures bucketChrs[c][k] !in bucketChrs[b]
    {
      DisjointAcross(bucketChrs, b, c, k);
    }
    forall c | 0 <= c < b
      ensures Gather(after, bucketChrs[c]) == Gather(before, bucketChrs[c])
    {
      assert forall k :: 0 <= k < |bucketChrs[c]| ==> bucketChrs[c][k] !in bucketChrs[b];
      GatherFrame(after, before, bucketChrs[c]);
    }
  }

  /** An id is listed by some output. */
  ghost predicate Assigned(bucketChrs: seq<seq<int>>, t: int) {
    exists b :: 0 <= b < |bucketChrs| && t in bucketChrs[b]
  }

  /** The deal gives every loaded reference to some output. */
  lemma LoadedAssigned(chr: seq<seq<Rec>>, stats: seq<ChrStat>, n: nat, bucketChrs: seq<seq<int>>)
    requires n > 0 && StatsFor(chr, stats)
    requires |bucketChrs| == n && forall b :: 0 <= b < n ==> bucketChrs[b] == Dealt(TidsOf(stats), n, b)
    ensures forall t :: 0 <= t < |chr| && chr[t] != [] ==> Assigned(bucketChrs, t)
  {
    var tids := TidsOf(stats);
    forall t | 0 <= t < |chr| && chr[t] != []
      ensures Assigned(bucketChrs, t)
    {
      var k :| 0 <= k < |tids| && tids[k] == t;
      DealtExactlyOnce(tids, n, k, k % n);
      assert t in bucketChrs[k % n];
    }
  }

  /**
   * The parallel loop over outputs, run one output after another. Since no
   * reference is listed twice, each output reads its references unaffected
   * by the others.
   */
  method WriteOutputs(chrVec: array<seq<Rec>>, bucketChrs: seq<seq<int>>) returns (written: seq<seq<Rec>>)
    requires forall b :: 0 <= b < |bucketChrs| ==> ValidTids(bucketChrs[b], chrVec.Length)
    requires DisjointAssignment(bucketChrs)
    modifies chrVec
    ensures |written| == |bucketChrs|
    ensures forall b :: 0 <= b < |bucketChrs| ==> written[b] == Gather(chrVec[..], bucketChrs[b])
    ensures forall t :: 0 <= t < chrVec.Length ==> multiset(chrVec[t]) == multiset(old(chrVec[t]))
    ensures forall t :: 0 <= t < chrVec.Length && Assigned(bucketChrs, t) ==> SortedByPos(chrVec[t])
    ensures forall t :: 0 <= t < chrVec.Length && !Assigned(bucketChrs, t) ==> chrVec[t] == old(chrVec[t])
  {
    written := [];
    var b := 0;
    while b < |bucketChrs|
      invariant 0 <= b <= |bucketChrs| && |written| == b
      invariant forall c :: 0 <= c < b ==> written[c] == Gather(chrVec[..], bucketChrs[c])
      invariant forall t :: 0 <= t < chrVec.Length ==> multiset(chrVec[t]) == multiset(old(chrVec[t]))
      invariant forall c, k :: 0 <= c < b && 0 <= k < |bucketChrs[c]| ==> SortedByPos(chrVec[bucketChrs[c][k]])
      invariant forall t :: 0 <= t < chrVec.Length && (forall c :: 0 <= c < b ==> t !in bucketChrs[c]) ==> chrVec[t] == old(chrVec[t])
    {
      ghost var before := chrVec[..];
      var tids := bucketChrs[b];
      DisjointWithin(bucketChrs, b);
      var out := WriteOutput(chrVec, tids);
      OthersUnaffected(before, chrVec[..], bucketChrs, b);
      written := written + [out];
      b := b + 1;
    }
    forall t | 0 <= t < chrVec.Length && Assigned(bucketChrs, t)
      ensures SortedByPos(chrVec[t])
    {
      var c :| 0 <= c < |bucketChrs| && t in bucketChrs[c];
      var k :| 0 <= k < |bucketChrs[c]| && bucketChrs[c][k] == t;
    }
  }

  /**
   * What the run promises about a successful outcome, given the loaded
   * buckets `chr`: the statistics describe them and are ranked, each output
   * gets the references dealt to it, every bucket ends up a position-sorted
   * permutation of what was loaded, and each output file holds the master
   * header and its references' records, one reference after another.
   */
  ghost predicate SplitOutcome(o: Outcome, chr: seq<seq<Rec>>, master: Header, prefix: string, n: nat, format: Format)
    requires n > 0
  {
    && StatsFor(chr, o.stats) && ReadsNonIncreasing(o.stats)
    && |o.bucketChrs| == n
    && (forall b :: 0 <= b < n ==> o.bucketChrs[b] == Dealt(TidsOf(o.stats), n, b))
    && SortedBuckets(o.chromosomes, chr)
    && ValidTids(TidsOf(o.stats), |o.chromosomes|)
    && |o.sinks| == n
    && (forall b :: 0 <= b < n ==>
          o.sinks[b] == Sink(OutputPath(prefix, b, format), master, OutputRecords(o.chromosomes, o.stats, n, b)))
  }

  /**
   * A successful run writes every mapped record exactly once across all the
   * output files together, and no unmapped record anywhere.
   */
  lemma SplitWritesMappedOnce(o: Outcome, recs: seq<Rec>, master: Header, prefix: string, n: nat, format: Format)
    requires n > 0
    requires SplitOutcome(o, Buckets(recs, |master|), master, prefix, n, format)
    ensures multiset(Flatten(seq(n, b requires 0 <= b < n => o.sinks[b].records)))
         == multiset(MappedRecords(recs, |master|))
  {
    OutputsPartitionMapped(recs, |master|, o.stats, o.chromosomes, n);
    assert seq(n, b requires 0 <= b < n => o.sinks[b].records)
        == seq(n, b requires 0 <= b < n => OutputRecords(o.chromosomes, o.stats, n, b));
  }

  /** Every output path can be opened. */
  predicate OutputsOpenable(unopenable: set<string>, prefix: string, format: Format, n: nat) {
    forall b :: 0 <= b < n ==> OutputPath(prefix, b, format) !in unopenable
  }

  /**
   * `main` from the statistics on, once every input is loaded into `chrVec`:
   * count, rank, deal, open the outputs, write them.
   */
  method SplitLoaded(chrVec: array<seq<Rec>>, master: Header, prefix: string, n: nat, format: Format, unopenable: set<string>)
    returns (r: Result<Outcome, Fatal>)
    requires n > 0
    modifies chrVec
    ensures r.Ok? <==> OutputsOpenable(unopenable, prefix, format, n)
    ensures r.Err? ==> exists b ::
      FirstUnopenable(unopenable, prefix, format, b, n) && r == Err(OutputOpenFailed(OutputPath(prefix, b, format)))
    ensures r.Ok? ==> SplitOutcome(r.value, old(chrVec[..]), master, prefix, n, format)
  {
    ghost var chr := chrVec[..];
    var collected := CollectStats(chrVec);
    var stats := RankStats(collected);
    StatsForPermutation(chr, collected, stats);
    var bucketChrs := Deal(stats, n);
    var openErr := OpenOutputs(prefix, n, format, unopenable);
    if openErr.Some? {
      return Err(openErr.value);
    }
    ghost var tids := TidsOf(stats);
    assert ValidTids(tids, |chr|);
    forall b | 0 <= b < n
      ensures ValidTids(bucketChrs[b], chrVec.Length)
    {
      DealtValid(tids, n, b, |chr|);
    }
    DealtIsDisjoint(tids, n, bucketChrs);
    var written := WriteOutputs(chrVec, bucketChrs);
    LoadedAssigned(chr, stats, n, bucketChrs);
    assert SortedBuckets(chrVec[..], chr);
    var sinks := seq(n, b requires 0 <= b < n => Sink(OutputPath(prefix, b, format), master, written[b]));
    r := Ok(Outcome(stats, bucketChrs, chrVec[..], sinks));
  }

  /**
   * `main` after argument parsing: the master header comes from input 0,
   * then every input is loaded and the loaded buckets are split. The first
   * fatal condition, in the order `main` meets them, is reported.
   */
  method MergeSplit(args: Args, files: map<string, BamFile>, unopenable: set<string>) returns (r: Result<Outcome, Fatal>)
    requires args.inputNum > 0 && args.outputNum > 0
    ensures !MasterReadable(files, args.prefix) ==>
      r == Err(if InputPath(args.prefix, 0) !in files then OpenFailed(InputPath(args.prefix, 0))
               else HeaderReadFailed(InputPath(args.prefix, 0)))
    ensures MasterReadable(files, args.prefix) && !InputsLoadable(files, args.prefix, args.inputNum) ==>
      exists k :: FirstInputError(files, Master(files, args.prefix), args.prefix, k, args.inputNum) &&
        r == Err(InputError(files, Master(files, args.prefix), InputPath(args.prefix, k)).value)
    ensures InputsLoadable(files, args.prefix, args.inputNum) && !OutputsOpenable(unopenable, args.prefix, args.format, args.outputNum) ==>
      exists b :: FirstUnopenable(unopenable, args.prefix, args.format, b, args.outputNum) &&
        r == Err(OutputOpenFailed(OutputPath(args.prefix, b, args.format)))
    ensures r.Ok? <==>
      InputsLoadable(files, args.prefix, args.inputNum) && OutputsOpenable(unopenable, args.prefix, args.format, args.outputNum)
    ensures r.Ok? ==>
      var master := Master(files, args.prefix);
      SplitOutcome(r.value, Buckets(AllRecords(files, args.prefix, args.inputNum), |master|),
                   master, args.prefix, args.outputNum, args.format)
  {
    var path0 := InputPath(args.prefix, 0);
    if path0 !in files {
      return Err(OpenFailed(path0));
    }
    if files[path0].header.None? {
      return Err(HeaderReadFailed(path0));
    }
    var master := files[path0].header.value;
    var chrVec := new seq<Rec>[|master|](_ => []);
    var loadErr := LoadInputs(chrVec, files, args.prefix, args.inputNum);
    if loadErr.Some? {
      return Err(loadErr.value);
    }
    r := SplitLoaded(chrVec, master, args.prefix, args.outputNum, args.format, unopenable);
  }
}
